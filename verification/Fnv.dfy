/**
  The 64-bit FNV-1a hash (draft-eastlake-fnv, section 2), used as the state checksum and as the
  schema identifier.  Each step is a bijection of 64-bit words, which is what makes the hash catch
  every single-byte change whatever the length of the input.
  */
module Fnv {
  import opened Core

  const OFFSET_BASIS: u64 := 0xcbf2_9ce4_8422_2325
  const PRIME: u64 := 0x100_0000_01b3
  /** The inverse of `PRIME` modulo 2^64. */
  const PRIME_INVERSE: u64 := 0xce96_5057_aff6_957b

  /** Exclusive or into the low byte, the only byte that an 8-bit operand can touch. */
  function Mix(h: u64, b: byte): u64 {
    h / 0x100 * 0x100 + XorByte(h % 0x100, b)
  }

  function Step(h: u64, b: byte): u64 {
    Mix(h, b) * PRIME % U64_LIMIT
  }

  function HashFrom(h: u64, s: Bytes): u64
    decreases |s|
  {
    if s == [] then h else HashFrom(Step(h, s[0]), s[1..])
  }

  function Hash(s: Bytes): u64 {
    HashFrom(OFFSET_BASIS, s)
  }

  lemma MultiplyInverts(x: u64)
    ensures x * PRIME % U64_LIMIT * PRIME_INVERSE % U64_LIMIT == x
  {
    var q, y := x * PRIME / U64_LIMIT, x * PRIME % U64_LIMIT;
    assert PRIME * PRIME_INVERSE == 0xce_9650_590f * U64_LIMIT + 1;
    RemainderOf(y * PRIME_INVERSE, 0xce_9650_590f * x - q * PRIME_INVERSE, x);
  }

  lemma RemainderOf(n: int, k: int, x: u64)
    requires n == x + k * 0x1_0000_0000_0000_0000
    ensures n % 0x1_0000_0000_0000_0000 == x
  {
  }

  lemma MixInverts(h: u64, b: byte)
    ensures Mix(Mix(h, b), b) == h
    ensures XorByte(h % 0x100, Mix(h, b) % 0x100) == b
  {
    var m := Mix(h, b);
    assert m == 0x100 * (h / 0x100) + XorByte(h % 0x100, b);
    assert m / 0x100 == h / 0x100 && m % 0x100 == XorByte(h % 0x100, b);
    XorCancels(h % 0x100, b);
  }

  /** A step is injective in the running hash for a fixed byte, and in the byte for a fixed hash. */
  lemma StepInjective(g: u64, a: byte, h: u64, b: byte)
    requires Step(g, a) == Step(h, b)
    ensures a == b <==> g == h
  {
    MultiplyInverts(Mix(g, a));
    MultiplyInverts(Mix(h, b));
    MixInverts(g, a);
    MixInverts(h, b);
  }

  lemma {:induction false} HashAppend(h: u64, s: Bytes, t: Bytes)
    ensures HashFrom(h, s + t) == HashFrom(HashFrom(h, s), t)
    decreases |s|
  {
    if s == [] {
      assert s + t == t;
    } else {
      assert (s + t)[1..] == s[1..] + t;
      HashAppend(Step(h, s[0]), s[1..], t);
    }
  }

  /** Equal bytes never make two different running hashes meet. */
  lemma {:induction false} TailKeepsApart(g: u64, h: u64, s: Bytes)
    ensures HashFrom(g, s) == HashFrom(h, s) <==> g == h
    decreases |s|
  {
    if s != [] {
      TailKeepsApart(Step(g, s[0]), Step(h, s[0]), s[1..]);
      if Step(g, s[0]) == Step(h, s[0]) {
        StepInjective(g, s[0], h, s[0]);
      }
    }
  }

  /** Two inputs that agree after a common cut collide exactly when their heads collide. */
  lemma SuffixPreservesCollision(s: Bytes, t: Bytes, suffix: Bytes)
    ensures Hash(s + suffix) == Hash(t + suffix) <==> Hash(s) == Hash(t)
  {
    HashAppend(OFFSET_BASIS, s, suffix);
    HashAppend(OFFSET_BASIS, t, suffix);
    TailKeepsApart(Hash(s), Hash(t), suffix);
  }

  /** The two strings have the same length and differ at most at position `k`. */
  ghost predicate DifferOnlyAt(s: Bytes, t: Bytes, k: nat) {
    && |s| == |t|
    && forall i | 0 <= i < |s| && i != k :: s[i] == t[i]
  }

  /** FNV-1a detects every single-byte substitution in inputs of any length. */
  lemma SubstitutionDetected(s: Bytes, t: Bytes, k: nat)
    requires DifferOnlyAt(s, t, k)
    ensures Hash(s) == Hash(t) <==> s == t
  {
    if k < |s| {
      var head, tail := s[..k], s[k + 1..];
      assert s == head + [s[k]] + tail && t == head + [t[k]] + tail;
      SuffixPreservesCollision(head + [s[k]], head + [t[k]], tail);
      HashAppend(OFFSET_BASIS, head, [s[k]]);
      HashAppend(OFFSET_BASIS, head, [t[k]]);
      if Hash(s) == Hash(t) {
        StepInjective(Hash(head), s[k], Hash(head), t[k]);
      }
    }
  }

  // ---------------------------------------------------------------- the draft

  /** Mixing in a byte is the exclusive or of the whole word with it. */
  lemma MixIsXor(h: u64, b: byte)
    ensures Mix(h, b) == Xor(h, b)
  {
    hide Xor, Pow2, Mix;
    Pow2Of8();
    var d, r := h / 0x100, h % 0x100;
    XorLow(d, 0x100, r, b, 8);
    MixParts(h, b, d, r);
  }

  lemma MixParts(h: u64, b: byte, d: nat, r: nat)
    requires d == h / 0x100 && r == h % 0x100
    ensures d * 0x100 + r == h && Mix(h, b) == d * 0x100 + Xor(r, b)
  {
    hide Xor;
  }

  /**
    The hash as the draft defines it: from the offset basis, for every byte first the exclusive or and then
    the product with the prime, modulo 2^64.
    */
  lemma HashIsDraft(s: Bytes, b: byte)
    ensures Hash([]) == 0xcbf2_9ce4_8422_2325
    ensures Hash(s + [b]) == Xor(Hash(s), b) * 0x100_0000_01b3 % 0x1_0000_0000_0000_0000
  {
    HashAppend(OFFSET_BASIS, s, [b]);
    assert [b][1..] == [];
    hide Xor;
    MixIsXor(Hash(s), b);
  }

  method Fnv1a64(bytes: Bytes) returns (hash: u64)
    ensures hash == Hash(bytes)
  {
    hash := OFFSET_BASIS;
    for i := 0 to |bytes|
      invariant HashFrom(hash, bytes[i..]) == Hash(bytes)
    {
      assert bytes[i..][1..] == bytes[i + 1..];
      hash := Mix(hash, bytes[i]);
      hash := hash * PRIME % U64_LIMIT;
    }
  }
}
