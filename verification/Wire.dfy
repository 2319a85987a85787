/**
  The packet and its wire envelope (`packet.rs`).  CRC-32 is an arbitrary function of the payload and
  zstd an abstract pair of functions; nothing below depends on which.
  */
module Wire {
  import opened Core

  datatype PacketKind = Snapshot | Delta

  datatype Packet = Packet(
    kind: PacketKind,
    flags: u16,
    sequence: u64,
    baseSequence: u64,
    baseHash: u64,
    schemaHash: u64,
    payload: Bytes)

  datatype DecodeConfig = DecodeConfig(maxPacketBytes: nat, maxDecompressedBytes: nat)

  const MIN_WIRE_VERSION: byte := 2
  const WIRE_VERSION: byte := 3
  const HEADER_LEN: nat := 46
  const MAX_PAYLOAD: nat := 0x400_0000
  const DEFAULT_CONFIG := DecodeConfig(HEADER_LEN + MAX_PAYLOAD, MAX_PAYLOAD)

  function NewSnapshot(sequence: u64, stateHash: u64, schemaHash: u64, payload: Bytes): Packet {
    Packet(Snapshot, 0, sequence, 0, stateHash, schemaHash, payload)
  }

  function NewDelta(sequence: u64, baseSequence: u64, baseHash: u64, schemaHash: u64, payload: Bytes): Packet {
    Packet(Delta, 0, sequence, baseSequence, baseHash, schemaHash, payload)
  }

  function EncodedLen(p: Packet): nat {
    HEADER_LEN + |p.payload|
  }

  /** Bit 0 is the only flag that exists. */
  predicate IsCompressed(p: Packet) {
    p.flags % 2 == 1
  }

  predicate KnownFlags(flags: u16) {
    flags / 2 == 0
  }

  // ---------------------------------------------------------------- compression

  datatype Zstd = Zstd(compress: (int, Bytes) -> Bytes, decompress: Bytes -> Option<Bytes>)

  ghost predicate Lossless(z: Zstd) {
    forall level, b :: z.decompress(z.compress(level, b)) == Some(b)
  }

  /** A compressed copy when that saves enough, otherwise the packet itself. */
  function ZstdCandidate(z: Zstd, p: Packet, level: int, minSavings: nat): Packet {
    if IsCompressed(p) || |p.payload| < 64 then p
    else
      var compressed := z.compress(level, p.payload);
      if SaturatingAdd(|compressed|, minSavings) >= |p.payload| then p
      else p.(payload := compressed, flags := p.flags + 1)
  }

  /** What the payload stands for, whatever its size. */
  function Unpack(z: Zstd, p: Packet): Option<Bytes> {
    if IsCompressed(p) then z.decompress(p.payload) else Some(p.payload)
  }

  function LogicalPayload(z: Zstd, p: Packet, limit: nat): Result<Bytes> {
    if !IsCompressed(p) then
      if |p.payload| > limit then Err(DecompressedPayloadTooLarge(limit, |p.payload|)) else Ok(p.payload)
    else
      match z.decompress(p.payload)
      case None => Err(Compression)
      case Some(b) => if |b| > limit then Err(Compression) else Ok(b)
  }

  lemma LogicalPayloadIsUnpacked(z: Zstd, p: Packet, limit: nat)
    ensures LogicalPayload(z, p, limit).Ok? <==> Unpack(z, p).Some? && |Unpack(z, p).value| <= limit
    ensures LogicalPayload(z, p, limit).Ok? ==> LogicalPayload(z, p, limit).value == Unpack(z, p).value
  {
  }

  /** Compression changes neither the meaning nor the header, and never makes a packet longer. */
  lemma CandidateMeansTheSame(z: Zstd, p: Packet, level: int, minSavings: nat)
    requires Lossless(z) && !IsCompressed(p)
    ensures var c := ZstdCandidate(z, p, level, minSavings);
            && Unpack(z, c) == Unpack(z, p) == Some(p.payload)
            && c.(payload := p.payload, flags := p.flags) == p
            && (IsCompressed(c) && |p.payload| <= MAX_LEN ==> |c.payload| + minSavings < |p.payload|)
            && (!IsCompressed(c) ==> c == p)
  {
  }

  /** When a packet is compressed: at 64 bytes and more, if that saves more than the margin; never twice. */
  lemma CompressedExactly(z: Zstd, p: Packet, level: int, minSavings: nat)
    requires |p.payload| <= MAX_LEN
    ensures var c, compressed := ZstdCandidate(z, p, level, minSavings), z.compress(level, p.payload);
            if p.flags % 2 == 0 && |p.payload| >= 64 && |compressed| + minSavings < |p.payload| then
              c.flags == p.flags + 1 && c.payload == compressed
            else c == p
  {
  }

  // ---------------------------------------------------------------- little-endian integers

  function PutLe(n: nat, width: nat): (b: Bytes)
    ensures |b| == width
  {
    if width == 0 then [] else [n % 0x100] + PutLe(n / 0x100, width - 1)
  }

  function ReadLe(b: Bytes): nat {
    if b == [] then 0 else b[0] + 0x100 * ReadLe(b[1..])
  }

  lemma {:induction false} ReadPutLe(n: nat, width: nat)
    requires n < Pow2(8 * width)
    ensures ReadLe(PutLe(n, width)) == n
  {
    if width > 0 {
      ScaleDown(n, width);
      ReadPutLe(n / 0x100, width - 1);
      assert PutLe(n, width)[1..] == PutLe(n / 0x100, width - 1);
    }
  }

  lemma ScaleDown(n: nat, width: nat)
    requires width > 0
    ensures n < Pow2(8 * width) <==> n / 0x100 < Pow2(8 * (width - 1))
  {
    hide Pow2;
    Pow2Add(8, 8 * (width - 1));
    Pow2Of8();
    assert 8 * width == 8 + 8 * (width - 1);
  }

  lemma {:induction false} PutReadLe(b: Bytes)
    ensures ReadLe(b) < Pow2(8 * |b|)
    ensures PutLe(ReadLe(b), |b|) == b
    decreases |b|
  {
    if b != [] {
      PutReadLe(b[1..]);
      ScaleDown(ReadLe(b), |b|);
      assert b == [b[0]] + b[1..];
    }
  }

  lemma LeWidths()
    ensures Pow2(8 * 2) == 0x1_0000
    ensures Pow2(8 * 4) == 0x1_0000_0000
    ensures Pow2(8 * 8) == 0x1_0000_0000_0000_0000
  {
    hide Pow2;
    Pow2Of8();
    Pow2Add(8, 8);
    Pow2Add(16, 16);
    Pow2Of64();
  }

  // ---------------------------------------------------------------- the envelope

  function KindByte(kind: PacketKind): byte {
    if kind == Snapshot then 1 else 2
  }

  /** Everything from the flags on, which starts at byte 4. */
  function Body(p: Packet, checksum: u32): Bytes {
    PutLe(p.flags, 2) +
    (PutLe(p.sequence, 8) +
     (PutLe(p.baseSequence, 8) +
      (PutLe(p.baseHash, 8) +
       (PutLe(p.schemaHash, 8) +
        (PutLe(checksum, 4) +
         (PutLe(|p.payload|, 4) + p.payload))))))
  }

  /** 'D', 'S', the version and the kind. */
  function Envelope(version: byte, p: Packet, checksum: u32): Bytes {
    [0x44, 0x53, version, KindByte(p.kind)] + Body(p, checksum)
  }

  function Encode(p: Packet, crc: Bytes -> u32): Result<Bytes> {
    if !KnownFlags(p.flags) then Err(InvalidPacket)
    else if |p.payload| > MAX_PAYLOAD then Err(PacketTooLarge(MAX_PAYLOAD, |p.payload|))
    else Ok(Envelope(WIRE_VERSION, p, crc(p.payload)))
  }

  function ReadU16(b: Bytes, at: nat): u16
    requires at + 2 <= |b|
  {
    PutReadLe(b[at..at + 2]);
    LeWidths();
    ReadLe(b[at..at + 2])
  }

  function ReadU32(b: Bytes, at: nat): u32
    requires at + 4 <= |b|
  {
    PutReadLe(b[at..at + 4]);
    LeWidths();
    ReadLe(b[at..at + 4])
  }

  function ReadU64(b: Bytes, at: nat): u64
    requires at + 8 <= |b|
  {
    PutReadLe(b[at..at + 8]);
    LeWidths();
    ReadLe(b[at..at + 8])
  }

  function Decode(b: Bytes, config: DecodeConfig, crc: Bytes -> u32): Result<Packet> {
    if |b| > config.maxPacketBytes then Err(PacketTooLarge(config.maxPacketBytes, |b|))
    else if |b| < HEADER_LEN then Err(InvalidPacket)
    else if b[0] != 0x44 || b[1] != 0x53 then Err(InvalidPacket)
    else if !(MIN_WIRE_VERSION <= b[2] <= WIRE_VERSION) then Err(ProtocolVersionRange(b[2]))
    else if b[3] != 1 && b[3] != 2 then Err(InvalidPacket)
    else if !KnownFlags(ReadU16(b, 4)) then Err(InvalidPacket)
    else
      var payloadLen := ReadU32(b, 42);
      var payload := b[HEADER_LEN..];
      if payloadLen > MAX_PAYLOAD || HEADER_LEN + payloadLen > config.maxPacketBytes then
        Err(PacketTooLarge(config.maxPacketBytes, HEADER_LEN + payloadLen))
      else if |b| != HEADER_LEN + payloadLen then Err(InvalidPacket)
      else if crc(payload) != ReadU32(b, 38) then Err(ChecksumMismatch(ReadU32(b, 38), crc(payload)))
      else
        Ok(Packet(if b[3] == 1 then Snapshot else Delta, ReadU16(b, 4), ReadU64(b, 6), ReadU64(b, 14),
                  ReadU64(b, 22), ReadU64(b, 30), payload))
  }

  /** The field at `at` and what follows it. */
  lemma Peel(b: Bytes, at: nat, field: Bytes, rest: Bytes)
    requires at <= |b| && b[at..] == field + rest
    ensures at + |field| <= |b|
    ensures b[at..at + |field|] == field && b[at + |field|..] == rest
  {
    assert b[at..][..|field|] == field && b[at..][|field|..] == rest;
  }

  lemma PeelU16(b: Bytes, at: nat, v: u16, rest: Bytes)
    requires at <= |b| && b[at..] == PutLe(v, 2) + rest
    ensures at + 2 <= |b| && ReadU16(b, at) == v && b[at + 2..] == rest
  {
    hide PutLe, ReadLe, Pow2;
    Peel(b, at, PutLe(v, 2), rest);
    LeWidths();
    ReadPutLe(v, 2);
  }

  lemma PeelU32(b: Bytes, at: nat, v: u32, rest: Bytes)
    requires at <= |b| && b[at..] == PutLe(v, 4) + rest
    ensures at + 4 <= |b| && ReadU32(b, at) == v && b[at + 4..] == rest
  {
    hide PutLe, ReadLe, Pow2;
    Peel(b, at, PutLe(v, 4), rest);
    LeWidths();
    ReadPutLe(v, 4);
  }

  lemma PeelU64(b: Bytes, at: nat, v: u64, rest: Bytes)
    requires at <= |b| && b[at..] == PutLe(v, 8) + rest
    ensures at + 8 <= |b| && ReadU64(b, at) == v && b[at + 8..] == rest
  {
    hide PutLe, ReadLe, Pow2;
    Peel(b, at, PutLe(v, 8), rest);
    LeWidths();
    ReadPutLe(v, 8);
  }

  lemma FieldsOfEnvelope(version: byte, p: Packet, checksum: u32)
    requires |p.payload| <= MAX_PAYLOAD
    ensures var b := Envelope(version, p, checksum);
            && |b| == EncodedLen(p)
            && b[0] == 0x44 && b[1] == 0x53 && b[2] == version && b[3] == (if p.kind == Snapshot then 1 else 2)
            && ReadU16(b, 4) == p.flags
            && ReadU64(b, 6) == p.sequence && ReadU64(b, 14) == p.baseSequence
            && ReadU64(b, 22) == p.baseHash && ReadU64(b, 30) == p.schemaHash
            && ReadU32(b, 38) == checksum && ReadU32(b, 42) == |p.payload|
            && b[HEADER_LEN..] == p.payload
  {
    hide PutLe, ReadU16, ReadU32, ReadU64;
    var b := Envelope(version, p, checksum);
    var r7 := PutLe(|p.payload|, 4) + p.payload;
    var r6 := PutLe(checksum, 4) + r7;
    var r5 := PutLe(p.schemaHash, 8) + r6;
    var r4 := PutLe(p.baseHash, 8) + r5;
    var r3 := PutLe(p.baseSequence, 8) + r4;
    var r2 := PutLe(p.sequence, 8) + r3;
    assert b[4..] == Body(p, checksum);
    PeelU16(b, 4, p.flags, r2);
    PeelU64(b, 6, p.sequence, r3);
    PeelU64(b, 14, p.baseSequence, r4);
    PeelU64(b, 22, p.baseHash, r5);
    PeelU64(b, 30, p.schemaHash, r6);
    PeelU32(b, 38, checksum, r7);
    PeelU32(b, 42, |p.payload|, p.payload);
  }

  /** Whatever can be encoded decodes to itself, under any limit that admits its length. */
  lemma DecodeEncode(p: Packet, config: DecodeConfig, crc: Bytes -> u32)
    ensures Encode(p, crc).Ok? <==> KnownFlags(p.flags) && |p.payload| <= MAX_PAYLOAD
    ensures Encode(p, crc).Ok? ==>
              var b := Encode(p, crc).value;
              && |b| == EncodedLen(p)
              && (if |b| <= config.maxPacketBytes then Decode(b, config, crc) == Ok(p)
                  else Decode(b, config, crc) == Err(PacketTooLarge(config.maxPacketBytes, |b|)))
  {
    if KnownFlags(p.flags) && |p.payload| <= MAX_PAYLOAD {
      hide Envelope, ReadU16, ReadU32, ReadU64;
      FieldsOfEnvelope(WIRE_VERSION, p, crc(p.payload));
    }
  }

  lemma Join(b: Bytes, at: nat, n: nat)
    requires at + n <= |b|
    ensures b[at..] == b[at..at + n] + b[at + n..]
    ensures PutLe(ReadLe(b[at..at + n]), n) == b[at..at + n]
  {
    PutReadLe(b[at..at + n]);
  }

  /** The envelope is a bijection: accepted bytes re-encode to themselves, except for the version byte. */
  lemma EncodeDecode(b: Bytes, config: DecodeConfig, crc: Bytes -> u32)
    requires Decode(b, config, crc).Ok?
    ensures Encode(Decode(b, config, crc).value, crc) == Ok(b[2 := WIRE_VERSION])
  {
    hide PutLe, ReadLe;
    var p := Decode(b, config, crc).value;
    Join(b, 4, 2);
    Join(b, 6, 8);
    Join(b, 14, 8);
    Join(b, 22, 8);
    Join(b, 30, 8);
    Join(b, 38, 4);
    Join(b, 42, 4);
    assert b[4..] == Body(p, crc(p.payload));
    assert b[2 := WIRE_VERSION] == [0x44, 0x53, WIRE_VERSION, b[3]] + b[4..];
  }

  /** Of all version bytes, exactly 2 and 3 are understood. */
  lemma VersionsUnderstood(version: byte, p: Packet, config: DecodeConfig, crc: Bytes -> u32)
    requires p.flags <= 1 && |p.payload| <= 0x400_0000 && 46 + |p.payload| <= config.maxPacketBytes
    ensures Decode(Envelope(version, p, crc(p.payload)), config, crc) ==
            if version == 2 || version == 3 then Ok(p) else Err(ProtocolVersionRange(version))
  {
    hide Envelope, ReadU16, ReadU32, ReadU64;
    FieldsOfEnvelope(version, p, crc(p.payload));
  }

  lemma OtherVersion(b: Bytes, p: Packet, checksum: u32)
    requires |b| > 2 && b[2 := WIRE_VERSION] == Envelope(WIRE_VERSION, p, checksum)
    ensures b == Envelope(b[2], p, checksum)
  {
    hide PutLe;
    assert b == b[2 := WIRE_VERSION][2 := b[2]];
  }

  lemma OnlyTheseDecode(b: Bytes, config: DecodeConfig, crc: Bytes -> u32)
    requires Decode(b, config, crc).Ok?
    ensures var p := Decode(b, config, crc).value;
            && 46 <= |b| <= config.maxPacketBytes && (b[2] == 2 || b[2] == 3)
            && p.flags <= 1 && |p.payload| <= 0x400_0000
  {
    hide ReadU16, ReadU32, ReadU64;
  }

  /**
    What the decoder accepts, and as what: the envelopes of versions 2 and 3, with no flag but the first, a
    payload of at most 64 MiB and its true checksum, within the limit.
    */
  lemma DecodesExactly(b: Bytes, config: DecodeConfig, crc: Bytes -> u32, p: Packet)
    ensures Decode(b, config, crc) == Ok(p) <==>
            && p.flags <= 1 && |p.payload| <= 0x400_0000 && 46 + |p.payload| <= config.maxPacketBytes
            && (b == Envelope(2, p, crc(p.payload)) || b == Envelope(3, p, crc(p.payload)))
  {
    if Decode(b, config, crc) == Ok(p) {
      OnlyTheseDecode(b, config, crc);
      EncodeDecode(b, config, crc);
      DecodeEncode(p, config, crc);
      assert Encode(p, crc) == Ok(Envelope(WIRE_VERSION, p, crc(p.payload)));
      OtherVersion(b, p, crc(p.payload));
    }
    hide Envelope, ReadU16, ReadU32, ReadU64, Decode;
    if p.flags <= 1 && |p.payload| <= 0x400_0000 && 46 + |p.payload| <= config.maxPacketBytes {
      VersionsUnderstood(2, p, config, crc);
      VersionsUnderstood(3, p, config, crc);
    }
  }

  /** The source's writer, field by field. */
  method EncodePacket(p: Packet, crc: Bytes -> u32) returns (r: Result<Bytes>)
    ensures r == Encode(p, crc)
  {
    if !KnownFlags(p.flags) {
      return Err(InvalidPacket);
    }
    if |p.payload| > MAX_PAYLOAD {
      return Err(PacketTooLarge(MAX_PAYLOAD, |p.payload|));
    }
    hide PutLe;
    var out := [0x44, 0x53];
    out := out + [WIRE_VERSION];
    out := out + [KindByte(p.kind)];
    out := out + PutLe(p.flags, 2);
    out := out + PutLe(p.sequence, 8);
    out := out + PutLe(p.baseSequence, 8);
    out := out + PutLe(p.baseHash, 8);
    out := out + PutLe(p.schemaHash, 8);
    out := out + PutLe(crc(p.payload), 4);
    out := out + PutLe(|p.payload|, 4);
    out := out + p.payload;
    EnvelopeFlat(p, crc(p.payload));
    return Ok(out);
  }

  lemma EnvelopeFlat(p: Packet, checksum: u32)
    ensures Envelope(WIRE_VERSION, p, checksum) ==
            [0x44, 0x53] + [WIRE_VERSION] + [KindByte(p.kind)] + PutLe(p.flags, 2) + PutLe(p.sequence, 8)
            + PutLe(p.baseSequence, 8) + PutLe(p.baseHash, 8) + PutLe(p.schemaHash, 8)
            + PutLe(checksum, 4) + PutLe(|p.payload|, 4) + p.payload
  {
    hide PutLe;
    var head: Bytes := [0x44, 0x53] + [WIRE_VERSION] + [KindByte(p.kind)];
    var a, b, c, d, e := PutLe(p.flags, 2), PutLe(p.sequence, 8), PutLe(p.baseSequence, 8),
                         PutLe(p.baseHash, 8), PutLe(p.schemaHash, 8);
    var f, g := PutLe(checksum, 4), PutLe(|p.payload|, 4);
    assert [0x44, 0x53, WIRE_VERSION, KindByte(p.kind)] == head;
    Associative(head, a, b + (c + (d + (e + (f + (g + p.payload))))));
    Associative(head + a, b, c + (d + (e + (f + (g + p.payload)))));
    Associative(head + a + b, c, d + (e + (f + (g + p.payload))));
    Associative(head + a + b + c, d, e + (f + (g + p.payload)));
    Associative(head + a + b + c + d, e, f + (g + p.payload));
    Associative(head + a + b + c + d + e, f, g + p.payload);
    Associative(head + a + b + c + d + e + f, g, p.payload);
  }
}
