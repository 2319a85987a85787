/** Machine integers, byte strings and the result type that every module shares. */
module Core {
  type byte = x: int | 0 <= x < 0x100
  type u16 = x: int | 0 <= x < 0x1_0000
  type u32 = x: int | 0 <= x < 0x1_0000_0000
  type u64 = x: int | 0 <= x < 0x1_0000_0000_0000_0000

  type Bytes = seq<byte>

  const U64_LIMIT: int := 0x1_0000_0000_0000_0000

  /** The longest slice a Rust program can address: `isize::MAX` bytes. */
  const MAX_LEN: int := 0x7fff_ffff_ffff_ffff

  datatype Option<+T> = None | Some(value: T)

  datatype Error =
    | InvalidPacket
    | InvalidState
    | Compression
    | SchemaMismatch(expected: u64, received: u64)
    | PacketTooLarge(limit: nat, actual: nat)
    | DecompressedPayloadTooLarge(limit: nat, actual: nat)
    | ProtocolVersionRange(version: byte)
    | ChecksumMismatch(stored: u32, computed: u32)
    | CounterOverflow
    | ValueOverflow

  /** A failure-compatible result, used with `:-` where the source uses `?`. */
  datatype Result<+T> = Ok(value: T) | Err(error: Error) {
    predicate IsFailure() {
      Err?
    }

    function PropagateFailure<U>(): Result<U>
      requires Err?
    {
      Err(error)
    }

    function Extract(): T
      requires Ok?
    {
      value
    }
  }

  lemma Associative<T>(a: seq<T>, b: seq<T>, c: seq<T>)
    ensures (a + b) + c == a + (b + c)
  {
  }

  lemma Split<T>(a: seq<T>, b: seq<T>)
    ensures (a + b)[..|a|] == a && (a + b)[|a|..] == b
  {
  }

  function Min(a: int, b: int): int {
    if a <= b then a else b
  }

  function Max(a: int, b: int): int {
    if a <= b then b else a
  }

  function SaturatingAdd(a: int, b: int): int {
    Min(a + b, U64_LIMIT - 1)
  }

  /** Bitwise exclusive or, lowest bit first. */
  function Xor(a: nat, b: nat): nat
    decreases a + b
  {
    if a == 0 && b == 0 then 0 else (a + b) % 2 + 2 * Xor(a / 2, b / 2)
  }

  lemma {:induction false} XorFits(n: nat, a: nat, b: nat)
    requires a < Pow2(n) && b < Pow2(n)
    ensures Xor(a, b) < Pow2(n)
  {
    if n > 0 {
      XorFits(n - 1, a / 2, b / 2);
    }
  }

  predicate BitOf(a: nat, k: nat) {
    if k == 0 then a % 2 == 1 else BitOf(a / 2, k - 1)
  }

  /** A bit of the result is set exactly when the operands differ there. */
  lemma {:induction false} XorBit(a: nat, b: nat, k: nat)
    ensures BitOf(Xor(a, b), k) <==> BitOf(a, k) != BitOf(b, k)
    decreases k
  {
    hide Xor;
    XorStep(a, b);
    if k > 0 {
      XorBit(a / 2, b / 2, k - 1);
    }
  }

  lemma {:induction false} XorZero(a: nat)
    ensures Xor(a, 0) == a
    decreases a
  {
    if a > 0 {
      XorZero(a / 2);
    }
  }

  /** An exclusive or with a `k`-bit number leaves the bits above alone. */
  lemma {:induction false} XorLow(d: nat, m: nat, r: nat, b: nat, k: nat)
    requires m == Pow2(k) && r < m && b < m
    ensures Xor(d * m + r, b) == d * m + Xor(r, b)
    decreases k
  {
    hide Xor;
    if k == 0 {
      XorZero(d);
      XorZero(0);
    } else {
      XorLow(d, Pow2(k - 1), r / 2, b / 2, k - 1);
      XorHigh(d * Pow2(k - 1), r, b);
      Doubled(d, Pow2(k - 1));
    }
  }

  lemma Doubled(d: nat, half: nat)
    ensures d * (2 * half) == 2 * (d * half)
  {
  }

  /** The lowest bit apart: an even number on top only moves to the next position. */
  lemma XorHigh(top: nat, r: nat, b: nat)
    requires Xor(top + r / 2, b / 2) == top + Xor(r / 2, b / 2)
    ensures Xor(2 * top + r, b) == 2 * top + Xor(r, b)
  {
    hide Xor;
    XorStep(2 * top + r, b);
    XorStep(r, b);
    assert (2 * top + r) / 2 == top + r / 2;
  }

  /** Bitwise exclusive or of two bytes. */
  function XorByte(a: byte, b: byte): (c: byte) {
    XorByteFits(a, b);
    Xor(a, b)
  }

  lemma XorByteFits(a: byte, b: byte)
    ensures Xor(a, b) < 0x100
  {
    hide Xor;
    Pow2Of8();
    XorFits(8, a, b);
  }

  lemma {:induction false} XorUndone(a: nat, b: nat)
    ensures Xor(a, Xor(a, b)) == b
    ensures Xor(Xor(a, b), b) == a
    decreases a + b
  {
    if a == 0 && b == 0 {
    } else {
      hide Xor;
      var c := Xor(a, b);
      XorUndone(a / 2, b / 2);
      XorStep(a, b);
      LowBit(a, b, c, Xor(a / 2, b / 2));
      XorStep(a, c);
      XorStep(c, b);
    }
  }

  lemma XorStep(a: nat, b: nat)
    ensures Xor(a, b) == (a + b) % 2 + 2 * Xor(a / 2, b / 2)
  {
  }

  lemma LowBit(a: nat, b: nat, c: nat, rest: nat)
    requires c == (a + b) % 2 + 2 * rest
    ensures c / 2 == rest
    ensures (a + c) % 2 + 2 * (b / 2) == b
    ensures (c + b) % 2 + 2 * (a / 2) == a
  {
  }

  lemma XorCancels(a: byte, b: byte)
    ensures XorByte(a, XorByte(a, b)) == b
    ensures XorByte(XorByte(a, b), b) == a
  {
    hide Xor;
    XorUndone(a, b);
  }

  function Pow2(n: nat): (p: nat)
    ensures p > 0
  {
    if n == 0 then 1 else 2 * Pow2(n - 1)
  }

  lemma {:induction false} Pow2Add(a: nat, b: nat)
    ensures Pow2(a + b) == Pow2(a) * Pow2(b)
  {
    if a == 0 {
    } else {
      Pow2Add(a - 1, b);
      calc {
        Pow2(a + b);
        2 * Pow2(a - 1 + b);
        2 * (Pow2(a - 1) * Pow2(b));
        (2 * Pow2(a - 1)) * Pow2(b);
      }
    }
  }

  lemma Pow2Of7()
    ensures Pow2(7) == 0x80
  {
  }

  lemma Pow2Of8()
    ensures Pow2(8) == 0x100
  {
  }

  lemma Pow2Of64()
    ensures Pow2(64) == 0x1_0000_0000_0000_0000
  {
    Pow2Of8();
    hide Pow2;
    Pow2Add(8, 8);
    Pow2Add(16, 16);
    Pow2Add(32, 32);
  }

  lemma Pow2Of128()
    ensures Pow2(128) == 0x1_0000_0000_0000_0000_0000_0000_0000_0000
  {
    hide Pow2;
    Pow2Of64();
    Pow2Add(64, 64);
  }
}
