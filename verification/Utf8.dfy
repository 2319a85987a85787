/** Well-formed UTF-8, as in Table 3-7 of the Unicode Standard: what `String::from_utf8` accepts. */
module Utf8 {
  import opened Core

  /** The length of the well-formed character that `b` starts with, or 0 when there is none. */
  function LeadingLength(b: Bytes): (n: nat)
    ensures n <= |b|
  {
    if b == [] then 0
    else if b[0] <= 0x7f then 1
    else if 0xc2 <= b[0] <= 0xdf then if Continues(b, 1) then 2 else 0
    else if 0xe0 <= b[0] <= 0xef then
      if Continues(b, 1) && Continues(b, 2)
         && (b[0] == 0xe0 ==> 0xa0 <= b[1]) && (b[0] == 0xed ==> b[1] <= 0x9f) then 3 else 0
    else if 0xf0 <= b[0] <= 0xf4 then
      if Continues(b, 1) && Continues(b, 2) && Continues(b, 3)
         && (b[0] == 0xf0 ==> 0x90 <= b[1]) && (b[0] == 0xf4 ==> b[1] <= 0x8f) then 4 else 0
    else 0
  }

  predicate Continues(b: Bytes, i: nat) {
    i < |b| && 0x80 <= b[i] <= 0xbf
  }

  predicate Valid(b: Bytes)
    decreases |b|
  {
    b == [] || (LeadingLength(b) > 0 && Valid(b[LeadingLength(b)..]))
  }

  type Text = b: Bytes | Valid(b)

  // ---------------------------------------------------------------- characters

  /** A Unicode scalar value: any code point but the surrogates. */
  predicate Scalar(c: nat) {
    c < 0x11_0000 && !(0xd800 <= c < 0xe000)
  }

  /** Section 3.9 of the Unicode Standard, Table 3-6: the bits of a scalar value over one to four bytes. */
  function Encoded(c: nat): (b: Bytes)
    requires Scalar(c)
  {
    if c < 0x80 then [c]
    else if c < 0x800 then [0xc0 + c / 0x40, 0x80 + c % 0x40]
    else if c < 0x1_0000 then [0xe0 + c / 0x1000, 0x80 + c / 0x40 % 0x40, 0x80 + c % 0x40]
    else [0xf0 + c / 0x4_0000, 0x80 + c / 0x1000 % 0x40, 0x80 + c / 0x40 % 0x40, 0x80 + c % 0x40]
  }

  function EncodedAll(cs: seq<nat>): Bytes
    requires forall c | c in cs :: Scalar(c)
  {
    if cs == [] then [] else Encoded(cs[0]) + EncodedAll(cs[1..])
  }

  lemma LeadingOfEncoded(c: nat, rest: Bytes)
    requires Scalar(c)
    ensures LeadingLength(Encoded(c) + rest) == |Encoded(c)|
  {
    EncodedIsOne(c);
    RestDoesNotMatter(Encoded(c), rest);
  }

  lemma EncodedIsOne(c: nat)
    requires Scalar(c)
    ensures LeadingLength(Encoded(c)) == |Encoded(c)| > 0
  {
    if 0x800 <= c < 0x1_0000 {
      SecondOfThree(c / 0x1000, c / 0x40 % 0x40, c % 0x40, c);
    } else if 0x1_0000 <= c {
      SecondOfFour(c / 0x4_0000, c / 0x1000 % 0x40, c % 0x1000, c);
    }
  }

  lemma SecondOfThree(p: nat, q: nat, r: nat, c: nat)
    requires Scalar(c) && 0x800 <= c < 0x1_0000 && p == c / 0x1000 && q == c / 0x40 % 0x40 && r == c % 0x40
    ensures p < 0x10 && q < 0x40 && (p == 0 ==> 0x20 <= q) && (p == 0xd ==> q <= 0x1f)
  {
    assert c / 0x40 / 0x40 == p;
    assert c == p * 0x1000 + q * 0x40 + r;
  }

  lemma SecondOfFour(p: nat, q: nat, r: nat, c: nat)
    requires 0x1_0000 <= c < 0x11_0000 && p == c / 0x4_0000 && q == c / 0x1000 % 0x40 && r == c % 0x1000
    ensures p <= 4 && q < 0x40 && (p == 0 ==> 0x10 <= q) && (p == 4 ==> q <= 0xf)
  {
    assert c / 0x1000 / 0x40 == p;
    assert c == p * 0x4_0000 + q * 0x1000 + r;
  }

  lemma RestDoesNotMatter(b: Bytes, rest: Bytes)
    requires LeadingLength(b) == |b| > 0
    ensures LeadingLength(b + rest) == |b|
  {
    var all := b + rest;
    assert forall i | 0 <= i < |b| :: all[i] == b[i];
  }

  /** The character that well-formed bytes start with. */
  lemma Decoded(b: Bytes) returns (c: nat)
    requires LeadingLength(b) > 0
    ensures Scalar(c) && Encoded(c) == b[..LeadingLength(b)]
  {
    match LeadingLength(b)
    case 1 => c := b[0];
    case 2 => c := Two(b[0], b[1]);
    case 3 => c := Three(b[0], b[1], b[2]);
    case _ => c := Four(b[0], b[1], b[2], b[3]);
  }

  lemma Two(b0: byte, b1: byte) returns (c: nat)
    requires 0xc2 <= b0 <= 0xdf && 0x80 <= b1 <= 0xbf
    ensures 0x80 <= c < 0x800 && Encoded(c) == [b0, b1]
  {
    c := (b0 - 0xc0) * 0x40 + (b1 - 0x80);
  }

  lemma ThreeGroups(p: nat, q: nat, r: nat) returns (c: nat)
    requires p < 0x10 && q < 0x40 && r < 0x40 && (p == 0 ==> q >= 0x20) && (p == 0xd ==> q < 0x20)
    ensures 0x800 <= c < 0x1_0000 && !(0xd800 <= c < 0xe000)
    ensures c / 0x1000 == p && c / 0x40 % 0x40 == q && c % 0x40 == r
  {
    c := p * 0x1000 + q * 0x40 + r;
    assert c / 0x40 == p * 0x40 + q;
  }

  lemma Three(b0: byte, b1: byte, b2: byte) returns (c: nat)
    requires 0xe0 <= b0 <= 0xef && 0x80 <= b1 <= 0xbf && 0x80 <= b2 <= 0xbf
    requires (b0 == 0xe0 ==> 0xa0 <= b1) && (b0 == 0xed ==> b1 <= 0x9f)
    ensures Scalar(c) && Encoded(c) == [b0, b1, b2]
  {
    c := ThreeGroups(b0 - 0xe0, b1 - 0x80, b2 - 0x80);
  }

  lemma FourGroups(p: nat, q: nat, r: nat, s: nat) returns (c: nat)
    requires p <= 4 && q < 0x40 && r < 0x40 && s < 0x40 && (p == 0 ==> q >= 0x10) && (p == 4 ==> q < 0x10)
    ensures 0x1_0000 <= c < 0x11_0000
    ensures c / 0x4_0000 == p && c / 0x1000 % 0x40 == q && c / 0x40 % 0x40 == r && c % 0x40 == s
  {
    c := p * 0x4_0000 + q * 0x1000 + r * 0x40 + s;
    assert c / 0x40 == p * 0x1000 + q * 0x40 + r;
    assert c / 0x1000 == p * 0x40 + q;
  }

  lemma Four(b0: byte, b1: byte, b2: byte, b3: byte) returns (c: nat)
    requires 0xf0 <= b0 <= 0xf4 && 0x80 <= b1 <= 0xbf && 0x80 <= b2 <= 0xbf && 0x80 <= b3 <= 0xbf
    requires (b0 == 0xf0 ==> 0x90 <= b1) && (b0 == 0xf4 ==> b1 <= 0x8f)
    ensures Scalar(c) && Encoded(c) == [b0, b1, b2, b3]
  {
    c := FourGroups(b0 - 0xf0, b1 - 0x80, b2 - 0x80, b3 - 0x80);
  }

  lemma {:induction false} EncodedIsValid(cs: seq<nat>)
    requires forall c | c in cs :: Scalar(c)
    ensures Valid(EncodedAll(cs))
  {
    hide LeadingLength, Encoded;
    if cs != [] {
      EncodedIsValid(cs[1..]);
      LeadingOfEncoded(cs[0], EncodedAll(cs[1..]));
      EncodedIsOne(cs[0]);
      Split(Encoded(cs[0]), EncodedAll(cs[1..]));
    }
  }

  lemma {:induction false} ValidIsEncoded(b: Bytes) returns (cs: seq<nat>)
    requires Valid(b)
    ensures (forall c | c in cs :: Scalar(c)) && EncodedAll(cs) == b
    decreases |b|
  {
    hide LeadingLength, Encoded, Scalar;
    if b == [] {
      cs := [];
    } else {
      var c := Decoded(b);
      var rest := ValidIsEncoded(b[LeadingLength(b)..]);
      cs := [c] + rest;
      assert b == b[..LeadingLength(b)] + b[LeadingLength(b)..];
    }
  }

  /** Well-formed bytes are the encodings of scalar values, one after the other. */
  lemma ValidMeansScalars(b: Bytes)
    ensures Valid(b) <==> exists cs: seq<nat> :: (forall c | c in cs :: Scalar(c)) && EncodedAll(cs) == b
  {
    hide Valid, EncodedAll, Scalar;
    if Valid(b) {
      var cs := ValidIsEncoded(b);
    }
    forall cs: seq<nat> | (forall c | c in cs :: Scalar(c)) && EncodedAll(cs) == b ensures Valid(b) {
      EncodedIsValid(cs);
    }
  }
}
