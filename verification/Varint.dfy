/**
  Unsigned LEB128 variable-length integers (DWARF 5, section 7.6).  The 64-bit pair lives in
  `smart_delta.rs` and the 128-bit pair in `binary.rs`; they differ only in the width.
  */
module Varint {
  import opened Core

  /** The canonical encoding: seven bits a byte, low bits first, high bit set on all but the last. */
  function Put(v: nat): (out: Bytes)
    ensures |out| >= 1
  {
    if v < 0x80 then [v] else [v % 0x80 + 0x80] + Put(v / 0x80)
  }

  /**
    Reads one integer of `bits` bits off the front of `b`, returning it with the bytes that follow.
    `acc` holds the bits below `shift`; the shifted group loses whatever falls above the width, and
    since `acc < Pow2(shift)` the bitwise or of the two is their sum.
    */
  function ReadFrom(bits: nat, b: Bytes, acc: nat, shift: nat): (r: Result<(nat, Bytes)>)
    requires shift < bits
    ensures r.Ok? ==> |r.value.1| < |b|
    decreases |b|
  {
    if b == [] then Err(InvalidPacket)
    else
      var sum := acc + Septet(bits, b[0], shift);
      if b[0] < 0x80 then Ok((sum, b[1..]))
      else if shift + 7 >= bits then Err(InvalidPacket)
      else ReadFrom(bits, b[1..], sum, shift + 7)
  }

  /** The seven bits of `b` moved up by `shift`, less those that fall off the top. */
  function Septet(bits: nat, b: byte, shift: nat): nat
    requires shift < bits
  {
    (if bits - shift >= 7 then b % 0x80 else b % 0x80 % Pow2(bits - shift)) * Pow2(shift)
  }

  function Read(bits: nat, b: Bytes): (r: Result<(nat, Bytes)>)
    requires bits > 0
    ensures r.Ok? ==> |r.value.1| < |b|
  {
    ReadFrom(bits, b, 0, 0)
  }

  function ReadU64(b: Bytes): (r: Result<(nat, Bytes)>)
    ensures r.Ok? ==> |r.value.1| < |b|
    ensures r.Ok? ==> r.value.0 < U64_LIMIT
  {
    ReadFits(64, b, 0, 0);
    Pow2Of64();
    Read(64, b)
  }

  lemma {:induction false} ReadFits(bits: nat, b: Bytes, acc: nat, shift: nat)
    requires shift < bits
    requires acc < Pow2(shift)
    ensures var r := ReadFrom(bits, b, acc, shift); r.Ok? ==> r.value.0 < Pow2(bits)
    decreases |b|
  {
    if b == [] {
    } else {
      GroupFits(bits, b[0], acc, shift);
      if shift + 7 < bits {
        ReadFits(bits, b[1..], acc + Septet(bits, b[0], shift), shift + 7);
      }
    }
  }

  lemma GroupFits(bits: nat, b: byte, acc: nat, shift: nat)
    requires shift < bits
    requires acc < Pow2(shift)
    ensures acc + Septet(bits, b, shift) < Pow2(bits)
    ensures acc + Septet(bits, b, shift) < Pow2(shift + 7)
  {
    var q, p := Pow2(bits - shift), Pow2(shift);
    var low := if bits - shift >= 7 then b % 0x80 else b % 0x80 % q;
    assert low < q && low < 0x80 by {
      Remainder(b % 0x80, q);
      if bits - shift >= 7 {
        SeptetFits(bits - shift);
      }
    }
    assert q * p == Pow2(bits) by { Pow2Add(bits - shift, shift); }
    assert 0x80 * p == Pow2(shift + 7) by { Pow2Add(7, shift); Pow2Of7(); }
    Room(low, q, p);
    Room(low, 0x80, p);
  }

  lemma SeptetFits(bits: nat)
    requires bits >= 7
    ensures 0x80 <= Pow2(bits)
  {
    Pow2Of7();
    Pow2Add(7, bits - 7);
  }

  lemma Remainder(a: nat, q: nat)
    requires q > 0
    ensures 0 <= a % q < q && a % q <= a
    ensures a < q ==> a % q == a
  {
  }

  lemma Room(a: int, b: int, p: nat)
    requires a < b
    ensures a * p + p <= b * p
  {
    var d: nat := b - a - 1;
    assert d * p >= 0;
    assert b * p == (a + 1 + d) * p == a * p + p + d * p;
  }

  /** The first byte of an encoding contributes the low seven bits; the rest carry `v / 0x80`. */
  lemma GroupOfPut(bits: nat, v: nat, shift: nat)
    requires shift < bits
    requires v < Pow2(bits - shift)
    ensures v < 0x80 ==> Septet(bits, v, shift) == v * Pow2(shift)
    ensures v >= 0x80 ==>
              && shift + 7 < bits
              && v / 0x80 < Pow2(bits - (shift + 7))
              && Septet(bits, v % 0x80 + 0x80, shift) + v / 0x80 * Pow2(shift + 7) == v * Pow2(shift)
  {
    Remainder(v, Pow2(bits - shift));
    if v >= 0x80 {
      WideValue(bits - shift, v);
      assert (v % 0x80 + 0x80) % 0x80 == v % 0x80;
      Remainder(v % 0x80, Pow2(bits - shift));
      assert Pow2(shift + 7) == 0x80 * Pow2(shift) by { Pow2Add(7, shift); Pow2Of7(); }
      Regroup(v, Pow2(shift));
    }
  }

  lemma WideValue(bits: nat, v: nat)
    requires 0x80 <= v < Pow2(bits)
    ensures bits > 7 && v / 0x80 < Pow2(bits - 7)
  {
    Pow2Of7();
    if bits <= 7 {
      Pow2Add(7 - bits, bits);
      Room(0, Pow2(7 - bits), Pow2(bits));
      assert false;
    }
    Pow2Add(7, bits - 7);
  }

  lemma Regroup(v: nat, p: nat)
    ensures v % 0x80 * p + v / 0x80 * (0x80 * p) == v * p
  {
    var q, r := v / 0x80, v % 0x80;
    assert q * (0x80 * p) == (0x80 * q) * p;
    assert (0x80 * q) * p + r * p == (0x80 * q + r) * p;
  }

  /** Reading in the middle of an encoding: `v` is what remains above `shift`. */
  lemma {:induction false} ReadPutFrom(bits: nat, v: nat, rest: Bytes, acc: nat, shift: nat)
    requires shift < bits
    requires v < Pow2(bits - shift)
    ensures ReadFrom(bits, Put(v) + rest, acc, shift) == Ok((acc + v * Pow2(shift), rest))
    decreases v
  {
    var b := Put(v) + rest;
    GroupOfPut(bits, v, shift);
    if v < 0x80 {
      assert b[1..] == rest;
    } else {
      assert b[1..] == Put(v / 0x80) + rest;
      ReadPutFrom(bits, v / 0x80, rest, acc + Septet(bits, v % 0x80 + 0x80, shift), shift + 7);
    }
  }

  /** Every value of the width survives the round trip, and exactly its own bytes are consumed. */
  lemma ReadPut(bits: nat, v: nat, rest: Bytes)
    requires bits > 0 && v < Pow2(bits)
    ensures Read(bits, Put(v) + rest) == Ok((v, rest))
  {
    hide Put, ReadFrom;
    ReadPutFrom(bits, v, rest, 0, 0);
  }

  lemma ReadPutU64(v: nat, rest: Bytes)
    requires v < U64_LIMIT
    ensures ReadU64(Put(v) + rest) == Ok((v, rest))
  {
    Pow2Of64();
    ReadPut(64, v, rest);
  }

  /** An encoding of a `7 * k`-bit value takes at most `k` bytes: 10 for u64 and 19 for u128. */
  lemma {:induction false} PutLength(v: nat, k: nat)
    requires k >= 1 && v < Pow2(7 * k)
    ensures |Put(v)| <= k
  {
    if v < 0x80 {
    } else {
      Pow2Of7();
      if k == 1 {
        assert false;
      }
      Pow2Add(7, 7 * (k - 1));
      assert 7 * k == 7 + 7 * (k - 1);
      PutLength(v / 0x80, k - 1);
    }
  }

  /** A nonzero value never takes more bytes than its own magnitude. */
  lemma {:induction false} PutLinear(v: nat)
    ensures |Put(v)| <= Max(1, v)
  {
    if v < 0x80 {
    } else {
      PutLinear(v / 0x80);
    }
  }

  // ---------------------------------------------------------------- the format itself

  /** The number that groups of seven bits spell, lowest group first. */
  function Value(b: Bytes): nat {
    if b == [] then 0 else b[0] % 0x80 + 0x80 * Value(b[1..])
  }

  /** The first byte without its high bit is number `n`. */
  predicate EndsAt(b: Bytes, n: nat) {
    n < |b| && b[n] < 0x80 && forall i | 0 <= i < n :: b[i] >= 0x80
  }

  /** What is written spells the value, ends at its last byte, and has no group to spare. */
  lemma {:induction false} PutSpells(v: nat)
    ensures var b := Put(v); Value(b) == v && EndsAt(b, |b| - 1) && (|b| > 1 ==> b[|b| - 1] != 0)
    decreases v
  {
    if v >= 0x80 {
      PutSpells(v / 0x80);
      var rest := Put(v / 0x80);
      assert Put(v) == [v % 0x80 + 0x80] + rest && Put(v)[1..] == rest;
      assert |rest| == 1 ==> Value(rest) == rest[0] % 0x80;
    }
  }

  /** What is read is the number spelled, modulo the width, if it ends soon enough; otherwise nothing is. */
  lemma ReadsWhatIsSpelled(bits: nat, b: Bytes)
    requires bits > 0
    ensures forall n: nat | EndsAt(b, n) && 7 * n < bits ::
              Read(bits, b) == Ok((Value(b[..n + 1]) % Pow2(bits), b[n + 1..]))
    ensures (forall n: nat | EndsAt(b, n) :: 7 * n >= bits) ==> Read(bits, b) == Err(InvalidPacket)
  {
    hide ReadFrom, Pow2, Value;
    assert Pow2(0) == 1 by { PowerZero(); }
    forall n: nat | EndsAt(b, n) && 7 * n < bits
      ensures Read(bits, b) == Ok((Value(b[..n + 1]) % Pow2(bits), b[n + 1..]))
    {
      ReadFromSpelled(bits, b, 0, 0, n);
    }
    if forall n: nat | EndsAt(b, n) :: 7 * n >= bits {
      ReadFromRefused(bits, b, 0, 0);
    }
  }

  lemma PowerZero()
    ensures Pow2(0) == 1
  {
  }

  lemma {:induction false} ReadFromRefused(bits: nat, b: Bytes, acc: nat, shift: nat)
    requires shift < bits
    requires forall n: nat | EndsAt(b, n) :: shift + 7 * n >= bits
    ensures ReadFrom(bits, b, acc, shift) == Err(InvalidPacket)
    decreases |b|
  {
    hide Septet;
    if b != [] {
      assert !EndsAt(b, 0);
      if shift + 7 < bits {
        forall n: nat | EndsAt(b[1..], n) ensures shift + 7 + 7 * n >= bits {
          assert EndsAt(b, n + 1);
        }
        ReadFromRefused(bits, b[1..], acc + Septet(bits, b[0], shift), shift + 7);
      }
    }
  }

  lemma ReadStep(bits: nat, b: Bytes, acc: nat, shift: nat)
    requires shift < bits && b != []
    ensures var sum := acc + Septet(bits, b[0], shift);
            ReadFrom(bits, b, acc, shift) ==
            if b[0] < 0x80 then Ok((sum, b[1..]))
            else if shift + 7 >= bits then Err(InvalidPacket)
            else ReadFrom(bits, b[1..], sum, shift + 7)
  {
    hide Septet;
  }

  lemma ValueSplit(b: Bytes)
    requires b != []
    ensures Value(b) == b[0] % 0x80 + 0x80 * Value(b[1..])
    ensures |b| == 1 ==> Value(b) == b[0] % 0x80
  {
  }

  lemma {:induction false} ReadFromSpelled(bits: nat, b: Bytes, acc: nat, shift: nat, n: nat)
    requires shift < bits && acc < Pow2(shift)
    requires EndsAt(b, n) && shift + 7 * n < bits
    ensures ReadFrom(bits, b, acc, shift) ==
            Ok(((acc + Value(b[..n + 1]) * Pow2(shift)) % Pow2(bits), b[n + 1..]))
    decreases n
  {
    hide Pow2, Septet, ReadFrom, Value;
    ReadStep(bits, b, acc, shift);
    ValueSplit(b[..n + 1]);
    if n == 0 {
      LastGroup(bits, b[0], acc, shift);
    } else {
      assert b[..n + 1][1..] == b[1..][..n] && b[1..][n..] == b[n + 1..];
      assert EndsAt(b[1..], n - 1);
      FullGroup(bits, b[0], acc, shift);
      ReadFromSpelled(bits, b[1..], acc + b[0] % 0x80 * Pow2(shift), shift + 7, n - 1);
      Shifted(acc, b[0] % 0x80, Value(b[1..][..n]), shift);
    }
  }

  lemma KeptBits(bits: nat, b: byte, shift: nat)
    requires shift < bits
    ensures Septet(bits, b, shift)
         == (if bits - shift >= 7 then b % 0x80 else b % 0x80 % Pow2(bits - shift)) * Pow2(shift)
  {
    hide Pow2;
  }

  lemma LastGroup(bits: nat, b: byte, acc: nat, shift: nat)
    requires shift < bits && acc < Pow2(shift)
    ensures acc + Septet(bits, b, shift) == (acc + b % 0x80 * Pow2(shift)) % Pow2(bits)
  {
    hide *;
    KeptBits(bits, b, shift);
    GroupFits(bits, b, acc, shift);
    if bits - shift >= 7 {
      Remainder(acc + Septet(bits, b, shift), Pow2(bits));
    } else {
      Pow2Add(bits - shift, shift);
      CutGroup(acc, b % 0x80, Pow2(shift), Pow2(bits - shift));
    }
  }

  lemma CutGroup(acc: nat, v: nat, p: nat, q: nat)
    requires p > 0 && q > 0 && acc + v % q * p < q * p
    ensures acc + v % q * p == (acc + v * p) % (q * p)
  {
    var d, r := v / q, v % q;
    assert v == d * q + r;
    Regrouped(d, q, r, p);
    OnlyRemainder(acc + v * p, q * p, d, acc + r * p);
  }

  lemma Regrouped(d: nat, q: nat, r: nat, p: nat)
    ensures (d * q + r) * p == d * (q * p) + r * p
  {
    assert (d * q) * p == d * (q * p);
  }

  lemma OnlyRemainder(x: nat, m: nat, q: nat, r: nat)
    requires x == q * m + r && r < m
    ensures x % m == r
  {
    var d := x / m - q;
    assert d * m == r - x % m;
    if d >= 1 {
      Room(0, d, m);
    } else if d <= -1 {
      Room(d, 0, m);
    }
  }

  lemma FullGroup(bits: nat, b: byte, acc: nat, shift: nat)
    requires shift + 7 < bits && acc < Pow2(shift)
    ensures Septet(bits, b, shift) == b % 0x80 * Pow2(shift)
    ensures acc + b % 0x80 * Pow2(shift) < Pow2(shift + 7)
  {
    hide Pow2;
    GroupFits(bits, b, acc, shift);
  }

  lemma Shifted(acc: nat, head: nat, tail: nat, shift: nat)
    ensures acc + head * Pow2(shift) + tail * Pow2(shift + 7) == acc + (head + 0x80 * tail) * Pow2(shift)
  {
    hide Pow2;
    Pow2Of7();
    Pow2Add(7, shift);
    var p := Pow2(shift);
    assert tail * (0x80 * p) == (0x80 * tail) * p;
    assert (head + 0x80 * tail) * p == head * p + (0x80 * tail) * p;
  }

  // ---------------------------------------------------------------- loops

  /** The writer loop. */
  method PutVar(out: Bytes, v: nat) returns (r: Bytes)
    ensures r == out + Put(v)
  {
    r := out;
    var value := v;
    while value >= 0x80
      invariant r + Put(value) == out + Put(v)
    {
      assert Put(value) == [value % 0x80 + 0x80] + Put(value / 0x80);
      r := r + [value % 0x80 + 0x80];
      value := value / 0x80;
    }
    r := r + [value];
  }

  /** The reader loop: moves the cursor past the integer it returns. */
  method ReadVar(bits: nat, bytes: Bytes, cursor: nat) returns (r: Result<nat>, next: nat)
    requires bits > 0 && cursor <= |bytes|
    ensures cursor <= next <= |bytes|
    ensures var s := Read(bits, bytes[cursor..]);
            if s.Ok? then r == Ok(s.value.0) && bytes[next..] == s.value.1 else r == Err(s.error)
  {
    var value: nat, shift: nat := 0, 0;
    next := cursor;
    while true
      invariant cursor <= next <= |bytes|
      invariant shift < bits
      invariant Read(bits, bytes[cursor..]) == ReadFrom(bits, bytes[next..], value, shift)
      decreases |bytes| - next
    {
      if next >= |bytes| {
        return Err(InvalidPacket), next;
      }
      var byte := bytes[next];
      assert bytes[next..][1..] == bytes[next + 1..];
      next := next + 1;
      value := value + Septet(bits, byte, shift);
      if byte < 0x80 {
        return Ok(value), next;
      }
      if shift + 7 >= bits {
        return Err(InvalidPacket), next;
      }
      shift := shift + 7;
    }
  }

  method ReadVarU64(bytes: Bytes, cursor: nat) returns (r: Result<nat>, next: nat)
    requires cursor <= |bytes|
    ensures cursor <= next <= |bytes|
    ensures r.Ok? ==> ReadU64(bytes[cursor..]) == Ok((r.value, bytes[next..]))
    ensures r.Err? ==> ReadU64(bytes[cursor..]) == Err(r.error)
  {
    r, next := ReadVar(64, bytes, cursor);
  }
}
