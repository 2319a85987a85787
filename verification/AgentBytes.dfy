/** The loops and cursors of `binary.rs`, proved against the codec in `AgentCodec`. */
module AgentBytes {
  import opened Core
  import opened Varint
  import opened Utf8
  import opened AgentCodec
  import Wire

  // ---------------------------------------------------------------- differences

  function BitIf(changed: bool, bit: nat): nat {
    if changed then bit else 0
  }

  /** One more bit adds its weight. */
  lemma {:induction false} MaskPrefix(c: seq<bool>, k: nat)
    requires k < |c|
    ensures MaskOf(c[..k + 1]) == MaskOf(c[..k]) + BitIf(c[k], Pow2(k))
    decreases |c|
  {
    var rest := c[1..];
    assert c[..k + 1][1..] == rest[..k];
    if k > 0 {
      assert c[..k][1..] == rest[..k - 1];
      MaskPrefix(rest, k - 1);
    }
  }

  lemma MaskStep(c: seq<bool>, k: nat, bit: nat)
    requires k < |c| && bit == Pow2(k)
    ensures MaskOf(c[..k + 1]) == MaskOf(c[..k]) + BitIf(c[k], bit)
    ensures k == 0 ==> MaskOf(c[..k]) == 0
  {
    MaskPrefix(c, k);
  }

  /** The mask of ten fields, bit by bit. */
  lemma MaskSum(c: seq<bool>)
    requires |c| == 10
    ensures MaskOf(c) == BitIf(c[0], 1) + BitIf(c[1], 2) + BitIf(c[2], 4) + BitIf(c[3], 8) + BitIf(c[4], 16)
                         + BitIf(c[5], 32) + BitIf(c[6], 64) + BitIf(c[7], 128) + BitIf(c[8], 256)
                         + BitIf(c[9], 512)
  {
    hide *;
    LowMask(c);
    HighMask(c);
  }

  lemma LowMask(c: seq<bool>)
    requires |c| == 10
    ensures MaskOf(c[..5]) == BitIf(c[0], 1) + BitIf(c[1], 2) + BitIf(c[2], 4) + BitIf(c[3], 8) + BitIf(c[4], 16)
  {
    hide *;
    Weights();
    MaskStep(c, 0, 1);
    MaskStep(c, 1, 2);
    MaskStep(c, 2, 4);
    MaskStep(c, 3, 8);
    MaskStep(c, 4, 16);
  }

  lemma HighMask(c: seq<bool>)
    requires |c| == 10
    ensures MaskOf(c) == MaskOf(c[..5]) + BitIf(c[5], 32) + BitIf(c[6], 64) + BitIf(c[7], 128)
                         + BitIf(c[8], 256) + BitIf(c[9], 512)
  {
    hide *;
    Weights();
    MaskStep(c, 5, 32);
    MaskStep(c, 6, 64);
    MaskStep(c, 7, 128);
    MaskStep(c, 8, 256);
    MaskStep(c, 9, 512);
    assert c[..10] == c;
  }

  lemma Weights()
    ensures Pow2(0) == 1 && Pow2(1) == 2 && Pow2(2) == 4 && Pow2(3) == 8 && Pow2(4) == 16
    ensures Pow2(5) == 32 && Pow2(6) == 64 && Pow2(7) == 128 && Pow2(8) == 256 && Pow2(9) == 512
  {
  }

  /** What the field macro does: a bit set for the first time is a sum. */
  method Mark<T>(mask: nat, bit: nat, changed: bool, value: T) returns (marked: nat, field: Option<T>)
    ensures marked == mask + BitIf(changed, bit)
    ensures field == IfChanged(changed, value)
  {
    marked, field := mask, None;
    if changed {
      marked := mask + bit;
      field := Some(value);
    }
  }

  lemma MaskOfChanges(before: AgentState, after: AgentState)
    ensures MaskOf(Changes(before, after)) ==
            BitIf(before.agentId != after.agentId, 1)
            + BitIf(before.model != after.model, 2)
            + BitIf(before.status != after.status, 4)
            + BitIf(before.task != after.task, 8)
            + BitIf(before.progress != after.progress, 16)
            + BitIf(before.tokens != after.tokens, 32)
            + BitIf(before.memoryMb != after.memoryMb, 64)
            + BitIf(FloatDiffers(before.cpuPercent, after.cpuPercent), 128)
            + BitIf(before.filesProcessed != after.filesProcessed, 256)
            + BitIf(before.currentFile != after.currentFile, 512)
  {
    hide MaskOf, BitIf, FloatDiffers, Utf8.Valid;
    MaskSum(Changes(before, after));
  }

  lemma BetweenFields(before: AgentState, after: AgentState)
    ensures var d := Between(before, after);
            && d.mask == MaskOf(Changes(before, after))
            && d.agentId == IfChanged(before.agentId != after.agentId, after.agentId)
            && d.model == IfChanged(before.model != after.model, after.model)
            && d.status == IfChanged(before.status != after.status, after.status)
            && d.task == IfChanged(before.task != after.task, after.task)
            && d.progress == IfChanged<i128>(before.progress != after.progress, after.progress - before.progress)
            && d.tokens == IfChanged<i128>(before.tokens != after.tokens, after.tokens - before.tokens)
            && d.memoryMb == IfChanged<i128>(before.memoryMb != after.memoryMb, after.memoryMb - before.memoryMb)
            && d.cpuPercent == IfChanged(FloatDiffers(before.cpuPercent, after.cpuPercent), after.cpuPercent)
            && d.filesProcessed == IfChanged<i128>(before.filesProcessed != after.filesProcessed,
                                                   after.filesProcessed - before.filesProcessed)
            && d.currentFile == IfChanged(before.currentFile != after.currentFile, after.currentFile)
  {
    hide MaskOf, IfChanged, FloatDiffers, Utf8.Valid;
  }

  /** The difference, filled in field by field. */
  method BetweenStates(before: AgentState, after: AgentState) returns (d: AgentDelta)
    ensures d == Between(before, after)
  {
    hide MaskOf, Changes, Between, Utf8.Valid, BitIf, IfChanged, FloatDiffers;
    MaskOfChanges(before, after);
    BetweenFields(before, after);
    var mask := 0;
    var agentId: Option<Text>;
    mask, agentId := Mark(mask, 1, before.agentId != after.agentId, after.agentId);
    var model: Option<Text>;
    mask, model := Mark(mask, 2, before.model != after.model, after.model);
    var status: Option<Text>;
    mask, status := Mark(mask, 4, before.status != after.status, after.status);
    var task: Option<Text>;
    mask, task := Mark(mask, 8, before.task != after.task, after.task);
    var progress: Option<i128>;
    mask, progress := Mark<i128>(mask, 16, before.progress != after.progress, after.progress - before.progress);
    var tokens: Option<i128>;
    mask, tokens := Mark<i128>(mask, 32, before.tokens != after.tokens, after.tokens - before.tokens);
    var memoryMb: Option<i128>;
    mask, memoryMb := Mark<i128>(mask, 64, before.memoryMb != after.memoryMb, after.memoryMb - before.memoryMb);
    var cpuPercent: Option<F32>;
    mask, cpuPercent := Mark(mask, 128, FloatDiffers(before.cpuPercent, after.cpuPercent),
                             after.cpuPercent);
    var filesProcessed: Option<i128>;
    mask, filesProcessed := Mark<i128>(mask, 256, before.filesProcessed != after.filesProcessed,
                                       after.filesProcessed - before.filesProcessed);
    var currentFile: Option<Text>;
    mask, currentFile := Mark(mask, 512, before.currentFile != after.currentFile, after.currentFile);
    d := AgentDelta(mask, agentId, model, status, task, progress, tokens, memoryMb, cpuPercent, filesProcessed,
                    currentFile);
  }

  // ---------------------------------------------------------------- writing

  method PutString(out: Bytes, s: Text) returns (r: Bytes)
    ensures r == out + PutText(s)
  {
    hide Put;
    r := PutVar(out, |s|);
    r := r + s;
  }

  method PutSigned(out: Bytes, v: i128) returns (r: Bytes)
    ensures r == out + Put(ZigZag(v))
  {
    r := PutVar(out, ZigZag(v));
  }

  method EncodeAgentState(s: AgentState) returns (out: Bytes)
    ensures out == EncodeState(s)
  {
    hide Put, PutText, Valid;
    out := [];
    out := PutString(out, s.agentId);
    out := PutString(out, s.model);
    out := PutString(out, s.status);
    out := PutString(out, s.task);
    out := PutVar(out, s.progress);
    out := PutVar(out, s.tokens);
    out := PutVar(out, s.memoryMb);
    out := out + s.cpuPercent;
    out := PutVar(out, s.filesProcessed);
    out := PutString(out, s.currentFile);
  }

  /** What the field macros do: nothing when the bit is clear, an error when the value is missing. */
  method AppendText(out: Bytes, present: bool, s: Option<Text>) returns (r: Result<Bytes>)
    ensures var e := PutOptText(present, s); r == if e.Ok? then Ok(out + e.value) else Err(e.error)
  {
    hide PutText, Valid;
    if !present {
      assert out + [] == out;
      return Ok(out);
    }
    if s.None? {
      return Err(InvalidState);
    }
    var appended := PutString(out, s.value);
    return Ok(appended);
  }

  method AppendSigned(out: Bytes, present: bool, v: Option<i128>) returns (r: Result<Bytes>)
    ensures var e := PutOptSigned(present, v); r == if e.Ok? then Ok(out + e.value) else Err(e.error)
  {
    hide Put, ZigZag;
    if !present {
      assert out + [] == out;
      return Ok(out);
    }
    if v.None? {
      return Err(InvalidState);
    }
    var appended := PutSigned(out, v.value);
    return Ok(appended);
  }

  method AppendFloat(out: Bytes, present: bool, f: Option<F32>) returns (r: Result<Bytes>)
    ensures var e := PutOptFloat(present, f); r == if e.Ok? then Ok(out + e.value) else Err(e.error)
  {
    if !present {
      assert out + [] == out;
      return Ok(out);
    }
    if f.None? {
      return Err(InvalidState);
    }
    return Ok(out + f.value);
  }

  // ---------------------------------------------------------------- reading

  lemma NumberIsRead(b: Bytes)
    ensures ReadNumber(b) == ReadFrom(128, b, 0, 0)
  {
    hide Pow2, ReadFrom;
  }

  /** The reader's part of a slice. */
  class Reader {
    const bytes: Bytes
    var pos: nat

    ghost predicate Valid()
      reads this
    {
      pos <= |bytes| <= MAX_LEN
    }

    function Rest(): Bytes
      requires Valid()
      reads this
    {
      bytes[pos..]
    }

    constructor (bytes: Bytes)
      requires |bytes| <= MAX_LEN
      ensures Valid() && Rest() == bytes
    {
      this.bytes := bytes;
      pos := 0;
    }

    method Take(n: nat) returns (r: Result<Bytes>)
      requires Valid()
      modifies this
      ensures Valid()
      ensures if n <= |old(Rest())| then r == Ok(old(Rest())[..n]) && Rest() == old(Rest())[n..]
              else r == Err(InvalidPacket) && Rest() == old(Rest())
    {
      var end := pos + n;
      if end >= U64_LIMIT {
        return Err(InvalidPacket);
      }
      if end > |bytes| {
        return Err(InvalidPacket);
      }
      var slice := bytes[pos..end];
      assert slice == Rest()[..n] && bytes[end..] == Rest()[n..];
      pos := end;
      return Ok(slice);
    }

    method U8() returns (r: Result<byte>)
      requires Valid()
      modifies this
      ensures Valid()
      ensures if old(Rest()) != [] then r == Ok(old(Rest())[0]) && Rest() == old(Rest())[1..]
              else r == Err(InvalidPacket)
    {
      var b :- Take(1);
      return Ok(b[0]);
    }

    method U16() returns (r: Result<u16>)
      requires Valid()
      modifies this
      ensures Valid()
      ensures if |old(Rest())| >= 2 then r == Ok(Wire.ReadU16(old(Rest()), 0)) && Rest() == old(Rest())[2..]
              else r == Err(InvalidPacket)
    {
      hide Wire.ReadLe;
      var b :- Take(2);
      assert b == old(Rest())[0..0 + 2] == b[0..0 + 2];
      return Ok(Wire.ReadU16(b, 0));
    }

    method Float() returns (r: Result<F32>)
      requires Valid()
      modifies this
      ensures Valid()
      ensures Yields(ReadFloat(old(Rest())), r, Rest())
    {
      var b :- Take(4);
      return Ok(b);
    }

    method VarU128() returns (r: Result<nat>)
      requires Valid()
      modifies this
      ensures Valid()
      ensures Yields(ReadNumber(old(Rest())), r, Rest())
    {
      hide Septet, Pow2, ReadNumber;
      NumberIsRead(Rest());
      var value: nat, shift: nat := 0, 0;
      while true
        invariant Valid() && shift < 128
        invariant ReadNumber(old(Rest())) == ReadFrom(128, Rest(), value, shift)
        decreases |Rest()|
      {
        ghost var rest := Rest();
        var b :- U8();
        assert Rest() == rest[1..];
        value := value + Septet(128, b, shift);
        if b < 0x80 {
          return Ok(value);
        }
        shift := shift + 7;
        if shift > 127 {
          return Err(InvalidPacket);
        }
      }
    }

    method VarI128() returns (r: Result<i128>)
      requires Valid()
      modifies this
      ensures Valid()
      ensures Yields(ReadSigned(old(Rest())), r, Rest())
    {
      hide ReadNumber;
      var n :- VarU128();
      return Ok(UnZigZag(n));
    }

    method String() returns (r: Result<Text>)
      requires Valid()
      modifies this
      ensures Valid()
      ensures Yields(ReadText(old(Rest())), r, Rest())
    {
      hide ReadNumber, Utf8.Valid;
      var len :- VarU128();
      if len >= U64_LIMIT {
        return Err(InvalidPacket);
      }
      var text :- Take(len);
      if !Utf8.Valid(text) {
        return Err(InvalidPacket);
      }
      return Ok(text);
    }

    method Below(limit: nat) returns (r: Result<nat>)
      requires Valid()
      modifies this
      ensures Valid()
      ensures Yields(ReadBelow(limit, old(Rest())), r, Rest())
    {
      hide ReadNumber;
      var n :- VarU128();
      if n >= limit {
        return Err(InvalidPacket);
      }
      return Ok(n);
    }

    method OptionalString(present: bool) returns (r: Result<Option<Text>>)
      requires Valid()
      modifies this
      ensures Valid()
      ensures Yields(ReadOptText(present, old(Rest())), r, Rest())
    {
      hide ReadText, Utf8.Valid;
      if !present {
        return Ok(None);
      }
      var s :- String();
      return Ok(Some(s));
    }

    method OptionalSigned(present: bool) returns (r: Result<Option<i128>>)
      requires Valid()
      modifies this
      ensures Valid()
      ensures Yields(ReadOptSigned(present, old(Rest())), r, Rest())
    {
      hide ReadSigned;
      if !present {
        return Ok(None);
      }
      var v :- VarI128();
      return Ok(Some(v));
    }

    method OptionalFloat(present: bool) returns (r: Result<Option<F32>>)
      requires Valid()
      modifies this
      ensures Valid()
      ensures Yields(ReadOptFloat(present, old(Rest())), r, Rest())
    {
      if !present {
        return Ok(None);
      }
      var f :- Float();
      return Ok(Some(f));
    }

    method Finish() returns (r: Result<bool>)
      requires Valid()
      ensures r == if Rest() == [] then Ok(true) else Err(InvalidPacket)
    {
      if pos == |bytes| {
        return Ok(true);
      }
      return Err(InvalidPacket);
    }
  }

  /** A read that should give `expected` gave `r` and left `rest` to be read. */
  ghost predicate Yields<T>(expected: Result<(T, Bytes)>, r: Result<T>, rest: Bytes) {
    match expected
    case Ok((v, left)) => r == Ok(v) && rest == left
    case Err(e) => r == Err(e)
  }

  method DecodeAgentState(bytes: Bytes) returns (r: Result<AgentState>)
    requires |bytes| <= MAX_LEN
    ensures r == DecodeState(bytes)
  {
    hide ReadText, ReadBelow, ReadFloat, Utf8.Valid, DecodeFigures;
    var reader := new Reader(bytes);
    var agentId :- reader.String();
    var model :- reader.String();
    var status :- reader.String();
    var task :- reader.String();
    r := ReadFigures(reader, agentId, model, status, task);
  }

  /** The rest of `decode_agent_state`. */
  method ReadFigures(reader: Reader, agentId: Text, model: Text, status: Text, task: Text)
    returns (r: Result<AgentState>)
    requires reader.Valid()
    modifies reader
    ensures r == DecodeFigures(agentId, model, status, task, old(reader.Rest()))
  {
    hide ReadText, ReadBelow, ReadFloat, Utf8.Valid;
    var progress :- reader.Below(0x100);
    var tokens :- reader.Below(U64_LIMIT);
    var memoryMb :- reader.Below(U64_LIMIT);
    var cpuPercent :- reader.Float();
    var filesProcessed :- reader.Below(U64_LIMIT);
    var currentFile :- reader.String();
    var _ :- reader.Finish();
    return Ok(AgentState(agentId, model, status, task, progress, tokens, memoryMb, cpuPercent, filesProcessed,
                         currentFile));
  }

  method DecodeAgentDelta(bytes: Bytes) returns (r: Result<AgentDelta>)
    requires |bytes| <= MAX_LEN
    ensures r == DecodeDelta(bytes)
  {
    hide ReadOptText, Utf8.Valid, DecodeRest, Bit, Wire.ReadU16;
    var reader := new Reader(bytes);
    var mask :- reader.U16();
    var agentId :- reader.OptionalString(Bit(mask, 0));
    var model :- reader.OptionalString(Bit(mask, 1));
    var status :- reader.OptionalString(Bit(mask, 2));
    var task :- reader.OptionalString(Bit(mask, 3));
    r := ReadAmounts(reader, AgentDelta(mask, agentId, model, status, task, None, None, None, None, None, None));
  }

  /** The rest of `decode_agent_delta`. */
  method ReadAmounts(reader: Reader, d: AgentDelta) returns (r: Result<AgentDelta>)
    requires reader.Valid()
    modifies reader
    ensures r == DecodeRest(d, old(reader.Rest()))
  {
    hide ReadOptText, ReadOptSigned, ReadOptFloat, Utf8.Valid, Bit;
    var progress :- reader.OptionalSigned(Bit(d.mask, 4));
    var tokens :- reader.OptionalSigned(Bit(d.mask, 5));
    var memoryMb :- reader.OptionalSigned(Bit(d.mask, 6));
    var cpuPercent :- reader.OptionalFloat(Bit(d.mask, 7));
    var filesProcessed :- reader.OptionalSigned(Bit(d.mask, 8));
    var currentFile :- reader.OptionalString(Bit(d.mask, 9));
    var _ :- reader.Finish();
    return Ok(d.(progress := progress, tokens := tokens, memoryMb := memoryMb, cpuPercent := cpuPercent,
                 filesProcessed := filesProcessed, currentFile := currentFile));
  }

  method EncodeAgentDelta(d: AgentDelta) returns (r: Result<Bytes>)
    ensures r == EncodeDelta(d)
  {
    hide PutOptText, EncodeRest, Bit, Wire.PutLe, Utf8.Valid;
    var out := Wire.PutLe(d.mask, 2);
    out :- AppendText(out, Bit(d.mask, 0), d.agentId);
    out :- AppendText(out, Bit(d.mask, 1), d.model);
    out :- AppendText(out, Bit(d.mask, 2), d.status);
    out :- AppendText(out, Bit(d.mask, 3), d.task);
    r := AppendAmounts(out, d);
    if r.Ok? {
      Flatten(Wire.PutLe(d.mask, 2), PutOptText(Bit(d.mask, 0), d.agentId).value,
              PutOptText(Bit(d.mask, 1), d.model).value, PutOptText(Bit(d.mask, 2), d.status).value,
              PutOptText(Bit(d.mask, 3), d.task).value + EncodeRest(d).value);
      Associative(Wire.PutLe(d.mask, 2) + PutOptText(Bit(d.mask, 0), d.agentId).value
                  + PutOptText(Bit(d.mask, 1), d.model).value + PutOptText(Bit(d.mask, 2), d.status).value,
                  PutOptText(Bit(d.mask, 3), d.task).value, EncodeRest(d).value);
    }
  }

  lemma Flatten(a: Bytes, b: Bytes, c: Bytes, d: Bytes, e: Bytes)
    ensures a + (b + (c + (d + e))) == a + b + c + d + e
  {
  }

  /** The rest of `encode_agent_delta`. */
  method AppendAmounts(head: Bytes, d: AgentDelta) returns (r: Result<Bytes>)
    ensures r == if EncodeRest(d).Ok? then Ok(head + EncodeRest(d).value) else Err(EncodeRest(d).error)
  {
    hide PutOptText, PutOptSigned, PutOptFloat, Bit, Utf8.Valid;
    var o4 :- AppendSigned(head, Bit(d.mask, 4), d.progress);
    var o5 :- AppendSigned(o4, Bit(d.mask, 5), d.tokens);
    var o6 :- AppendSigned(o5, Bit(d.mask, 6), d.memoryMb);
    var o7 :- AppendFloat(o6, Bit(d.mask, 7), d.cpuPercent);
    var o8 :- AppendSigned(o7, Bit(d.mask, 8), d.filesProcessed);
    var o9 :- AppendText(o8, Bit(d.mask, 9), d.currentFile);
    ghost var e4, e5 := PutOptSigned(Bit(d.mask, 4), d.progress).value, PutOptSigned(Bit(d.mask, 5), d.tokens).value;
    ghost var e6, e7 := PutOptSigned(Bit(d.mask, 6), d.memoryMb).value, PutOptFloat(Bit(d.mask, 7), d.cpuPercent).value;
    ghost var e8 := PutOptSigned(Bit(d.mask, 8), d.filesProcessed).value;
    ghost var e9 := PutOptText(Bit(d.mask, 9), d.currentFile).value;
    Flatten(head, e4, e5, e6, e7 + (e8 + (e9 + [])));
    Flatten(o6, e7, e8, e9, []);
    assert o9 + [] == o9;
    return Ok(o9);
  }
}
