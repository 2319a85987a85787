/**
  The layout of encoded agent states and deltas (`binary.rs`), stated apart from the functions that
  encode and decode them: what lies where, which mask bit stands for which field, and what is refused.
  */
module AgentFormat {
  import opened Core
  import opened Utf8
  import opened AgentCodec
  import Varint
  import Wire

  // ---------------------------------------------------------------- pieces in a row

  function Joined(pieces: seq<Bytes>): Bytes {
    if pieces == [] then [] else pieces[0] + Joined(pieces[1..])
  }

  lemma JoinedCons(piece: Bytes, pieces: seq<Bytes>)
    ensures Joined([piece] + pieces) == piece + Joined(pieces)
  {
    assert ([piece] + pieces)[1..] == pieces;
  }

  lemma JoinedNone()
    ensures Joined([]) == []
  {
  }

  // ---------------------------------------------------------------- fields

  /** The bytes are the number in groups of seven bits, lowest first, with none to spare. */
  predicate IsNumber(b: Bytes, n: nat) {
    b != [] && Varint.Value(b) == n && Varint.EndsAt(b, |b| - 1) && (|b| > 1 ==> b[|b| - 1] != 0)
  }

  /** The length, then the characters. */
  ghost predicate IsText(b: Bytes, s: Text) {
    exists k: nat :: k <= |b| && IsNumber(b[..k], |s|) && b[k..] == s
  }

  lemma PutIsNumber(n: nat)
    ensures IsNumber(Varint.Put(n), n)
  {
    Varint.PutSpells(n);
  }

  lemma PutTextIsText(s: Text)
    ensures IsText(PutText(s), s)
  {
    hide Varint.Put, IsNumber, Valid;
    PutIsNumber(|s|);
    Split(Varint.Put(|s|), s);
    assert PutText(s)[..|Varint.Put(|s|)|] == Varint.Put(|s|);
  }

  /** Even numbers for the non-negative, odd ones for the negative, in order of size. */
  lemma ZigZagIs(v: i128)
    ensures ZigZag(v) == if v >= 0 then 2 * v else -2 * v - 1
  {
    if v < 0 {
      assert 2 * v % (2 * I128_LIMIT) == 2 * v + 2 * I128_LIMIT;
    } else {
      assert 2 * v % (2 * I128_LIMIT) == 2 * v;
    }
  }

  // ---------------------------------------------------------------- states

  function Pieces(s: AgentState): seq<Bytes> {
    [PutText(s.agentId), PutText(s.model), PutText(s.status), PutText(s.task), Varint.Put(s.progress),
     Varint.Put(s.tokens), Varint.Put(s.memoryMb), s.cpuPercent, Varint.Put(s.filesProcessed), PutText(s.currentFile)]
  }

  lemma StateIsJoined(s: AgentState)
    ensures EncodeState(s) == Joined(Pieces(s))
  {
    hide Joined, Varint.Put, PutText, Valid;
    var p9 := [PutText(s.currentFile)];
    var p8 := [Varint.Put(s.filesProcessed)] + p9;
    var p7 := [s.cpuPercent] + p8;
    var p6 := [Varint.Put(s.memoryMb)] + p7;
    var p5 := [Varint.Put(s.tokens)] + p6;
    var p4 := [Varint.Put(s.progress)] + p5;
    var p3 := [PutText(s.task)] + p4;
    var p2 := [PutText(s.status)] + p3;
    var p1 := [PutText(s.model)] + p2;
    JoinedNone();
    JoinedCons(PutText(s.currentFile), []);
    assert p9 == [PutText(s.currentFile)] + [];
    JoinedCons(Varint.Put(s.filesProcessed), p9);
    JoinedCons(s.cpuPercent, p8);
    JoinedCons(Varint.Put(s.memoryMb), p7);
    JoinedCons(Varint.Put(s.tokens), p6);
    JoinedCons(Varint.Put(s.progress), p5);
    JoinedCons(PutText(s.task), p4);
    JoinedCons(PutText(s.status), p3);
    JoinedCons(PutText(s.model), p2);
    JoinedCons(PutText(s.agentId), p1);
    assert Pieces(s) == [PutText(s.agentId)] + p1;
  }

  /** An encoded state is its ten fields in this order, and nothing else. */
  lemma FieldsOfState(s: AgentState) returns (parts: seq<Bytes>)
    ensures |parts| == 10 && EncodeState(s) == Joined(parts)
    ensures IsText(parts[0], s.agentId) && IsText(parts[1], s.model)
    ensures IsText(parts[2], s.status) && IsText(parts[3], s.task)
    ensures IsNumber(parts[4], s.progress) && IsNumber(parts[5], s.tokens) && IsNumber(parts[6], s.memoryMb)
    ensures parts[7] == s.cpuPercent
    ensures IsNumber(parts[8], s.filesProcessed) && IsText(parts[9], s.currentFile)
  {
    hide Joined, EncodeState, Varint.Put, PutText, IsNumber, IsText, Valid;
    StateIsJoined(s);
    parts := Pieces(s);
    PutTextIsText(s.agentId);
    PutTextIsText(s.model);
    PutTextIsText(s.status);
    PutTextIsText(s.task);
    PutIsNumber(s.progress);
    PutIsNumber(s.tokens);
    PutIsNumber(s.memoryMb);
    PutIsNumber(s.filesProcessed);
    PutTextIsText(s.currentFile);
  }

  lemma {:induction false} JoinedThen(pieces: seq<Bytes>, extra: Bytes)
    ensures Joined(pieces) + extra == Joined(pieces + [extra])
  {
    if pieces == [] {
      JoinedNone();
      JoinedCons(extra, []);
      assert [extra] + [] == [extra] && [] + [extra] == [extra];
    } else {
      JoinedThen(pieces[1..], extra);
      assert pieces + [extra] == [pieces[0]] + (pieces[1..] + [extra]);
      JoinedCons(pieces[0], pieces[1..] + [extra]);
      Associative(pieces[0], Joined(pieces[1..]), extra);
    }
  }

  /** A state with anything after it is no state. */
  lemma TrailingBytesRefused(s: AgentState, extra: Bytes)
    requires Storable(s) && extra != []
    ensures DecodeState(EncodeState(s) + extra) == Err(InvalidPacket)
  {
    hide Joined, EncodeState, Varint.Put, PutText, ReadText, ReadBelow, Valid;
    StateIsJoined(s);
    JoinedThen(Pieces(s), extra);
    JoinedNone();
    JoinedCons(extra, []);
    var p := Pieces(s);
    var j9 := [p[9]] + ([extra] + []);
    var j8 := [p[8]] + j9;
    var j7 := [p[7]] + j8;
    var j6 := [p[6]] + j7;
    var j5 := [p[5]] + j6;
    var j4 := [p[4]] + j5;
    var j3 := [p[3]] + j4;
    var j2 := [p[2]] + j3;
    var j1 := [p[1]] + j2;
    assert p + [extra] == [p[0]] + j1;
    JoinedCons(p[9], [extra] + []);
    JoinedCons(p[8], j9);
    JoinedCons(p[7], j8);
    JoinedCons(p[6], j7);
    JoinedCons(p[5], j6);
    JoinedCons(p[4], j5);
    JoinedCons(p[3], j4);
    JoinedCons(p[2], j3);
    JoinedCons(p[1], j2);
    JoinedCons(p[0], j1);
    TextRoundTrip(s.agentId, Joined(j1));
    TextRoundTrip(s.model, Joined(j2));
    TextRoundTrip(s.status, Joined(j3));
    TextRoundTrip(s.task, Joined(j4));
    BelowRoundTrip(0x100, s.progress, Joined(j5));
    BelowRoundTrip(U64_LIMIT, s.tokens, Joined(j6));
    BelowRoundTrip(U64_LIMIT, s.memoryMb, Joined(j7));
    Split(s.cpuPercent, Joined(j8));
    BelowRoundTrip(U64_LIMIT, s.filesProcessed, Joined(j9));
    TextRoundTrip(s.currentFile, extra + []);
  }

  // ---------------------------------------------------------------- deltas

  /** Bit `k` of the mask: the powers of two in the order of the fields. */
  lemma {:induction false} BitIs(mask: nat, k: nat)
    ensures Bit(mask, k) <==> mask / Pow2(k) % 2 == 1
    decreases k
  {
    if k > 0 {
      BitIs(mask / 2, k - 1);
      Halved(mask, Pow2(k - 1));
    }
  }

  lemma Halved(mask: nat, p: nat)
    requires p > 0
    ensures mask / (2 * p) == mask / 2 / p
  {
    var q := mask / 2 / p;
    var r := mask / 2 % p;
    assert mask / 2 == q * p + r;
    assert mask == q * (2 * p) + (2 * r + mask % 2);
    Quotient(mask, 2 * p, q, 2 * r + mask % 2);
  }

  lemma Quotient(x: nat, m: nat, q: nat, r: nat)
    requires x == q * m + r && r < m
    ensures x / m == q
  {
    var d := x / m - q;
    assert d * m == r - x % m;
    if d >= 1 {
      Varint.Room(0, d, m);
    } else if d <= -1 {
      Varint.Room(d, 0, m);
    }
  }

  ghost predicate IsOptText(b: Bytes, present: bool, s: Option<Text>) {
    if present then s.Some? && IsText(b, s.value) else b == []
  }

  predicate IsOptSigned(b: Bytes, present: bool, v: Option<i128>) {
    if present then v.Some? && IsNumber(b, if v.value >= 0 then 2 * v.value else -2 * v.value - 1) else b == []
  }

  predicate IsOptFloat(b: Bytes, present: bool, f: Option<F32>) {
    if present then f.Some? && b == f.value else b == []
  }

  lemma OptTextIs(present: bool, s: Option<Text>)
    ensures var e := PutOptText(present, s);
            if present && s.None? then e == Err(InvalidState) else e.Ok? && IsOptText(e.value, present, s)
  {
    hide PutText, IsText, Valid;
    if s.Some? {
      PutTextIsText(s.value);
    }
  }

  lemma OptSignedIs(present: bool, v: Option<i128>)
    ensures var e := PutOptSigned(present, v);
            if present && v.None? then e == Err(InvalidState) else e.Ok? && IsOptSigned(e.value, present, v)
  {
    hide Varint.Put, ZigZag, IsNumber;
    if v.Some? {
      ZigZagIs(v.value);
      PutIsNumber(ZigZag(v.value));
    }
  }

  lemma OptFloatIs(present: bool, f: Option<F32>)
    ensures var e := PutOptFloat(present, f);
            if present && f.None? then e == Err(InvalidState) else e.Ok? && IsOptFloat(e.value, present, f)
  {
  }

  /** The mask calls for field `k`. */
  predicate Called(mask: u16, k: nat)
    requires k < 10
  {
    var p := [1, 2, 4, 8, 16, 32, 64, 128, 256, 512];
    mask / p[k] % 2 == 1
  }

  lemma CalledIs(mask: u16, k: nat)
    requires k < 10
    ensures Called(mask, k) <==> Bit(mask, k)
  {
    hide Bit;
    BitIs(mask, k);
    assert Pow2(0) == 1 && Pow2(1) == 2 && Pow2(2) == 4 && Pow2(3) == 8 && Pow2(4) == 16;
    assert Pow2(5) == 32 && Pow2(6) == 64 && Pow2(7) == 128 && Pow2(8) == 256 && Pow2(9) == 512;
  }

  /** A field that the mask calls for is missing. */
  predicate LacksValue(d: AgentDelta) {
    || (Called(d.mask, 0) && d.agentId.None?) || (Called(d.mask, 1) && d.model.None?)
    || (Called(d.mask, 2) && d.status.None?) || (Called(d.mask, 3) && d.task.None?)
    || (Called(d.mask, 4) && d.progress.None?) || (Called(d.mask, 5) && d.tokens.None?)
    || (Called(d.mask, 6) && d.memoryMb.None?) || (Called(d.mask, 7) && d.cpuPercent.None?)
    || (Called(d.mask, 8) && d.filesProcessed.None?) || (Called(d.mask, 9) && d.currentFile.None?)
  }

  lemma RestIsJoined(d: AgentDelta) returns (parts: seq<Bytes>)
    requires EncodeRest(d).Ok?
    ensures |parts| == 6 && EncodeRest(d) == Ok(Joined(parts))
    ensures IsOptSigned(parts[0], Bit(d.mask, 4), d.progress) && IsOptSigned(parts[1], Bit(d.mask, 5), d.tokens)
    ensures IsOptSigned(parts[2], Bit(d.mask, 6), d.memoryMb) && IsOptFloat(parts[3], Bit(d.mask, 7), d.cpuPercent)
    ensures IsOptSigned(parts[4], Bit(d.mask, 8), d.filesProcessed)
    ensures IsOptText(parts[5], Bit(d.mask, 9), d.currentFile)
  {
    hide Joined, PutOptText, PutOptSigned, PutOptFloat, IsOptText, IsOptSigned, IsOptFloat, Bit, Valid;
    OptSignedIs(Bit(d.mask, 4), d.progress);
    OptSignedIs(Bit(d.mask, 5), d.tokens);
    OptSignedIs(Bit(d.mask, 6), d.memoryMb);
    OptFloatIs(Bit(d.mask, 7), d.cpuPercent);
    OptSignedIs(Bit(d.mask, 8), d.filesProcessed);
    OptTextIs(Bit(d.mask, 9), d.currentFile);
    var e4, e5 := PutOptSigned(Bit(d.mask, 4), d.progress).value, PutOptSigned(Bit(d.mask, 5), d.tokens).value;
    var e6, e7 := PutOptSigned(Bit(d.mask, 6), d.memoryMb).value, PutOptFloat(Bit(d.mask, 7), d.cpuPercent).value;
    var e8 := PutOptSigned(Bit(d.mask, 8), d.filesProcessed).value;
    var e9 := PutOptText(Bit(d.mask, 9), d.currentFile).value;
    JoinedNone();
    JoinedCons(e9, []);
    JoinedCons(e8, [e9] + []);
    JoinedCons(e7, [e8] + ([e9] + []));
    JoinedCons(e6, [e7] + ([e8] + ([e9] + [])));
    JoinedCons(e5, [e6] + ([e7] + ([e8] + ([e9] + []))));
    JoinedCons(e4, [e5] + ([e6] + ([e7] + ([e8] + ([e9] + [])))));
    parts := [e4] + ([e5] + ([e6] + ([e7] + ([e8] + ([e9] + [])))));
  }

  lemma AllJoined(d: AgentDelta) returns (parts: seq<Bytes>)
    requires EncodeFields(d).Ok?
    ensures |parts| == 10 && EncodeFields(d) == Ok(Joined(parts))
    ensures IsOptText(parts[0], Bit(d.mask, 0), d.agentId) && IsOptText(parts[1], Bit(d.mask, 1), d.model)
    ensures IsOptText(parts[2], Bit(d.mask, 2), d.status) && IsOptText(parts[3], Bit(d.mask, 3), d.task)
    ensures IsOptSigned(parts[4], Bit(d.mask, 4), d.progress) && IsOptSigned(parts[5], Bit(d.mask, 5), d.tokens)
    ensures IsOptSigned(parts[6], Bit(d.mask, 6), d.memoryMb) && IsOptFloat(parts[7], Bit(d.mask, 7), d.cpuPercent)
    ensures IsOptSigned(parts[8], Bit(d.mask, 8), d.filesProcessed)
    ensures IsOptText(parts[9], Bit(d.mask, 9), d.currentFile)
  {
    hide Joined, PutOptText, EncodeRest, IsOptText, IsOptSigned, IsOptFloat, Bit, Valid;
    var rest := RestIsJoined(d);
    OptTextIs(Bit(d.mask, 0), d.agentId);
    OptTextIs(Bit(d.mask, 1), d.model);
    OptTextIs(Bit(d.mask, 2), d.status);
    OptTextIs(Bit(d.mask, 3), d.task);
    var e0, e1 := PutOptText(Bit(d.mask, 0), d.agentId).value, PutOptText(Bit(d.mask, 1), d.model).value;
    var e2, e3 := PutOptText(Bit(d.mask, 2), d.status).value, PutOptText(Bit(d.mask, 3), d.task).value;
    JoinedCons(e3, rest);
    JoinedCons(e2, [e3] + rest);
    JoinedCons(e1, [e2] + ([e3] + rest));
    JoinedCons(e0, [e1] + ([e2] + ([e3] + rest)));
    parts := [e0] + ([e1] + ([e2] + ([e3] + rest)));
  }

  lemma AllCalled(mask: u16)
    ensures forall k: nat | k < 10 :: Called(mask, k) <==> Bit(mask, k)
  {
    forall k: nat | k < 10 ensures Called(mask, k) <==> Bit(mask, k) {
      CalledIs(mask, k);
    }
  }

  lemma RestMissing(d: AgentDelta)
    ensures var lacks := || (Bit(d.mask, 4) && d.progress.None?) || (Bit(d.mask, 5) && d.tokens.None?)
                         || (Bit(d.mask, 6) && d.memoryMb.None?) || (Bit(d.mask, 7) && d.cpuPercent.None?)
                         || (Bit(d.mask, 8) && d.filesProcessed.None?) || (Bit(d.mask, 9) && d.currentFile.None?);
            if lacks then EncodeRest(d) == Err(InvalidState) else EncodeRest(d).Ok?
  {
    hide PutOptText, PutOptSigned, PutOptFloat, IsOptText, IsOptSigned, IsOptFloat, Bit, Valid;
    OptSignedIs(Bit(d.mask, 4), d.progress);
    OptSignedIs(Bit(d.mask, 5), d.tokens);
    OptSignedIs(Bit(d.mask, 6), d.memoryMb);
    OptFloatIs(Bit(d.mask, 7), d.cpuPercent);
    OptSignedIs(Bit(d.mask, 8), d.filesProcessed);
    OptTextIs(Bit(d.mask, 9), d.currentFile);
  }

  /** A delta is refused exactly when a field that its mask calls for is missing. */
  lemma MissingValueRefused(d: AgentDelta)
    ensures if LacksValue(d) then EncodeDelta(d) == Err(InvalidState) else EncodeDelta(d).Ok?
  {
    hide PutOptText, IsOptText, EncodeRest, Bit, Called, Valid, Wire.PutLe;
    AllCalled(d.mask);
    OptTextIs(Bit(d.mask, 0), d.agentId);
    OptTextIs(Bit(d.mask, 1), d.model);
    OptTextIs(Bit(d.mask, 2), d.status);
    OptTextIs(Bit(d.mask, 3), d.task);
    RestMissing(d);
  }

  /** An encoded delta is its mask, low byte first, and then the fields that the mask calls for, in this order. */
  lemma FieldsOfDelta(d: AgentDelta) returns (parts: seq<Bytes>)
    requires !LacksValue(d)
    ensures EncodeDelta(d).Ok? && |parts| == 10
    ensures EncodeDelta(d).value == [d.mask % 0x100, d.mask / 0x100] + Joined(parts)
    ensures IsOptText(parts[0], Called(d.mask, 0), d.agentId) && IsOptText(parts[1], Called(d.mask, 1), d.model)
    ensures IsOptText(parts[2], Called(d.mask, 2), d.status) && IsOptText(parts[3], Called(d.mask, 3), d.task)
    ensures IsOptSigned(parts[4], Called(d.mask, 4), d.progress)
    ensures IsOptSigned(parts[5], Called(d.mask, 5), d.tokens)
    ensures IsOptSigned(parts[6], Called(d.mask, 6), d.memoryMb)
    ensures IsOptFloat(parts[7], Called(d.mask, 7), d.cpuPercent)
    ensures IsOptSigned(parts[8], Called(d.mask, 8), d.filesProcessed)
    ensures IsOptText(parts[9], Called(d.mask, 9), d.currentFile)
  {
    hide Joined, EncodeFields, IsOptText, IsOptSigned, IsOptFloat, Bit, Called, LacksValue, Valid;
    MissingValueRefused(d);
    AllCalled(d.mask);
    parts := AllJoined(d);
    TwoBytes(d.mask);
  }

  lemma TwoBytes(mask: u16)
    ensures Wire.PutLe(mask, 2) == [mask % 0x100, mask / 0x100]
  {
    assert Wire.PutLe(mask / 0x100, 1) == [mask / 0x100];
  }

  // ---------------------------------------------------------------- which changes are sent

  /** A float as the 32-bit word it is stored in. */
  function Word(f: F32): nat {
    f[0] as int + 0x100 * f[1] as int + 0x1_0000 * f[2] as int + 0x100_0000 * f[3] as int
  }

  /** Section 3.4 of IEEE 754-2019: all exponent bits set and a fraction that is not zero. */
  predicate NotANumber(f: F32) {
    Word(f) % 0x8000_0000 > 0x7f80_0000
  }

  predicate Zero(f: F32) {
    Word(f) % 0x8000_0000 == 0
  }

  lemma FloatClasses(f: F32)
    ensures (IsNan(f) <==> NotANumber(f)) && (IsZero(f) <==> Zero(f))
  {
    var low: int, high: int := f[0] as int + 0x100 * f[1] as int + 0x1_0000 * f[2] as int, f[3];
    assert low < 0x100_0000;
    assert Word(f) == high / 0x80 * 0x8000_0000 + (high % 0x80 * 0x100_0000 + low);
    assert Word(f) % 0x8000_0000 == high % 0x80 * 0x100_0000 + low;
  }

  lemma SameWord(a: F32, b: F32)
    ensures Word(a) == Word(b) <==> a == b
  {
    if Word(a) == Word(b) {
      assert a[0] == b[0] && a[1] == b[1] && a[2] == b[2] && a[3] == b[3];
    }
  }

  /** A float is sent unless it has the same bits and is a number, or both are zeros. */
  lemma FloatsCompared(a: F32, b: F32)
    ensures FloatDiffers(a, b) <==>
            NotANumber(a) || NotANumber(b) || (Word(a) != Word(b) && !(Zero(a) && Zero(b)))
  {
    hide IsNan, IsZero, Word;
    FloatClasses(a);
    FloatClasses(b);
    SameWord(a, b);
  }

  /** Every field that differs is sent with its new value or the signed difference, and no other field is. */
  lemma OnlyChangesAreSent(before: AgentState, after: AgentState)
    ensures var d := Between(before, after);
            && d.agentId == (if before.agentId == after.agentId then None else Some(after.agentId))
            && d.model == (if before.model == after.model then None else Some(after.model))
            && d.status == (if before.status == after.status then None else Some(after.status))
            && d.task == (if before.task == after.task then None else Some(after.task))
            && (before.progress == after.progress <==> d.progress == None)
            && (d.progress.Some? ==> before.progress + d.progress.value == after.progress)
            && (before.tokens == after.tokens <==> d.tokens == None)
            && (d.tokens.Some? ==> before.tokens + d.tokens.value == after.tokens)
            && (before.memoryMb == after.memoryMb <==> d.memoryMb == None)
            && (d.memoryMb.Some? ==> before.memoryMb + d.memoryMb.value == after.memoryMb)
            && (d.cpuPercent == if FloatDiffers(before.cpuPercent, after.cpuPercent) then Some(after.cpuPercent)
                                else None)
            && (before.filesProcessed == after.filesProcessed <==> d.filesProcessed == None)
            && (d.filesProcessed.Some? ==> before.filesProcessed + d.filesProcessed.value == after.filesProcessed)
            && d.currentFile == (if before.currentFile == after.currentFile then None else Some(after.currentFile))
  {
    hide FloatDiffers, Valid, MaskOf;
  }

  /** Two equal states without a NaN differ by an empty mask, sent as two zero bytes. */
  lemma NothingChanged(s: AgentState)
    requires Storable(s)
    ensures EncodeDelta(Between(s, s)) == Ok([0, 0]) <==> !NotANumber(s.cpuPercent)
  {
    hide EncodeDelta, Bit, MaskMatches, StorableDelta, Changes, Between, FloatDiffers, Called, Valid;
    var d := Between(s, s);
    FloatsCompared(s.cpuPercent, s.cpuPercent);
    OnlyChangesAreSent(s, s);
    if NotANumber(s.cpuPercent) {
      NanIsFlagged(s);
    } else {
      NoFlags(s);
      NoFields(d);
    }
  }

  lemma NoFlags(s: AgentState)
    requires !FloatDiffers(s.cpuPercent, s.cpuPercent)
    ensures Between(s, s).mask == 0
  {
    hide FloatDiffers, MaskOf, Valid;
    EmptyMask(Changes(s, s));
  }

  lemma NanIsFlagged(s: AgentState)
    requires FloatDiffers(s.cpuPercent, s.cpuPercent) && Storable(s)
    ensures EncodeDelta(Between(s, s)) != Ok([0, 0])
  {
    hide EncodeDelta, FloatDiffers, Between, IsOptText, IsOptSigned, IsOptFloat, Joined, Valid;
    var d := Between(s, s);
    BetweenIsWellFormed(s, s);
    DeltaRoundTrip(d);
    OnlyChangesAreSent(s, s);
    MissingValueRefused(d);
    var parts := FieldsOfDelta(d);
    assert Bit(d.mask, 7);
    AllCalled(d.mask);
    assert Called(d.mask, 7);
  }

  lemma {:induction false} EmptyMask(bits: seq<bool>)
    requires forall i | 0 <= i < |bits| :: !bits[i]
    ensures MaskOf(bits) == 0
  {
    if bits != [] {
      EmptyMask(bits[1..]);
    }
  }

  lemma NoFields(d: AgentDelta)
    requires d.mask == 0
    ensures EncodeDelta(d) == Ok([0, 0])
  {
    hide Bit;
    AllCalled(0);
    assert forall k: nat | k < 10 :: !Called(0, k);
    TwoBytes(0);
    var none: Bytes := [];
    assert none + none == none;
    assert EncodeRest(d) == Ok(none);
    assert EncodeFields(d) == Ok(none) && [0, 0] + none == [0, 0];
  }
}
