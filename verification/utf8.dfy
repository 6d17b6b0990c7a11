// What the decoders' UTF-8 check accepts: exactly the concatenations of encoded
// Unicode scalar values.
module Utf8 {
  import opened Bytes
  import opened Text

  // Every code point but the surrogates.
  predicate IsScalar(c: nat) {
    c < 0xD800 || 0xE000 <= c < 0x11_0000
  }

  // The bit pattern of RFC 3629, section 3, in arithmetic.
  function EncodeScalar(c: nat): bytes
    requires IsScalar(c)
  {
    if c < 0x80 then [c as byte]
    else if c < 0x800 then [(0xC0 + c / 64) as byte, (0x80 + c % 64) as byte]
    else if c < 0x1_0000 then
      [(0xE0 + c / 4096) as byte, (0x80 + c / 64 % 64) as byte, (0x80 + c % 64) as byte]
    else
      [(0xF0 + c / 262144) as byte, (0x80 + c / 4096 % 64) as byte, (0x80 + c / 64 % 64) as byte,
       (0x80 + c % 64) as byte]
  }

  predicate AllScalars(cs: seq<nat>) {
    forall i :: 0 <= i < |cs| ==> IsScalar(cs[i])
  }

  function EncodeScalars(cs: seq<nat>): bytes
    requires AllScalars(cs)
  {
    if cs == [] then [] else EncodeScalar(cs[0]) + EncodeScalars(cs[1..])
  }

  lemma ScalarIsChar(c: nat, rest: bytes)
    requires IsScalar(c)
    ensures CharLen(EncodeScalar(c) + rest) == |EncodeScalar(c)|
  {
    if c < 0x80 {
    } else if c < 0x800 {
    } else if c < 0x1_0000 {
      ThreeBytes(c);
    } else {
      FourBytes(c);
    }
  }

  // Where a three-byte pattern's first byte leaves its second one.
  lemma ThreeBytes(c: nat)
    requires 0x800 <= c < 0x1_0000 && IsScalar(c)
    ensures c / 4096 == 0 ==> 32 <= c / 64 % 64
    ensures c / 4096 == 13 ==> c / 64 % 64 < 32
  {
  }

  lemma FourBytes(c: nat)
    requires 0x1_0000 <= c < 0x11_0000
    ensures c / 262144 <= 4
    ensures c / 262144 == 0 ==> 16 <= c / 4096 % 64
    ensures c / 262144 == 4 ==> c / 4096 % 64 < 16
  {
  }

  // Six bits at a time, packing and unpacking.
  lemma Unpack(a: nat, b: nat, d: nat)
    requires b < 64 && d < 64
    ensures var c := a * 4096 + b * 64 + d;
            c / 4096 == a && c / 64 == a * 64 + b && c / 64 % 64 == b && c % 64 == d
  {
  }

  lemma TwoByteScalar(s: bytes) returns (c: nat)
    requires CharLen(s) == 2
    ensures IsScalar(c) && s[..2] == EncodeScalar(c)
  {
    c := (s[0] - 0xC0) as nat * 64 + (s[1] - 0x80) as nat;
  }

  lemma ThreeByteScalar(s: bytes) returns (c: nat)
    requires CharLen(s) == 3
    ensures IsScalar(c) && s[..3] == EncodeScalar(c)
  {
    var a, b, d := (s[0] - 0xE0) as nat, (s[1] - 0x80) as nat, (s[2] - 0x80) as nat;
    c := a * 4096 + b * 64 + d;
    Unpack(a, b, d);
    assert 0x800 <= c < 0x1_0000 && IsScalar(c);
    assert s[..3] == [s[0], s[1], s[2]];
  }

  lemma FourByteScalar(s: bytes) returns (c: nat)
    requires CharLen(s) == 4
    ensures IsScalar(c) && s[..4] == EncodeScalar(c)
  {
    var a, b := (s[0] - 0xF0) as nat, (s[1] - 0x80) as nat;
    var d, e := (s[2] - 0x80) as nat, (s[3] - 0x80) as nat;
    c := (a * 64 + b) * 4096 + d * 64 + e;
    Unpack(a * 64 + b, d, e);
    assert c / 262144 == a && c / 4096 % 64 == b;
    assert 0x1_0000 <= c < 0x11_0000;
    assert s[..4] == [s[0], s[1], s[2], s[3]];
  }

  lemma CharIsScalar(s: bytes) returns (c: nat)
    requires CharLen(s) > 0
    ensures IsScalar(c) && s[..CharLen(s)] == EncodeScalar(c)
  {
    hide EncodeScalar;
    if CharLen(s) == 1 {
      c := s[0] as nat;
      OneByteScalar(s);
    } else if CharLen(s) == 2 {
      c := TwoByteScalar(s);
    } else if CharLen(s) == 3 {
      c := ThreeByteScalar(s);
    } else {
      c := FourByteScalar(s);
    }
  }

  lemma OneByteScalar(s: bytes)
    requires CharLen(s) == 1
    ensures s[..1] == EncodeScalar(s[0] as nat)
  {
  }

  lemma {:induction false} ScalarsAreValid(cs: seq<nat>)
    requires AllScalars(cs)
    ensures ValidUtf8(EncodeScalars(cs))
    decreases |cs|
  {
    hide CharLen, EncodeScalar;
    if cs != [] {
      var first, rest := EncodeScalar(cs[0]), EncodeScalars(cs[1..]);
      ScalarsAreValid(cs[1..]);
      ScalarIsChar(cs[0], rest);
      ScalarIsNonempty(cs[0]);
      assert (first + rest)[|first|..] == rest;
    }
  }

  lemma ScalarIsNonempty(c: nat)
    requires IsScalar(c)
    ensures |EncodeScalar(c)| > 0
  {
  }

  lemma {:induction false} ValidIsScalars(s: bytes) returns (cs: seq<nat>)
    requires ValidUtf8(s)
    ensures AllScalars(cs) && s == EncodeScalars(cs)
    decreases |s|
  {
    hide CharLen, EncodeScalar;
    if s == [] {
      cs := [];
    } else {
      var c := CharIsScalar(s);
      var rest := ValidIsScalars(s[CharLen(s)..]);
      cs := [c] + rest;
      assert cs[1..] == rest;
      assert s == s[..CharLen(s)] + s[CharLen(s)..];
    }
  }

  // A byte string passes the check if and only if it encodes some scalars.
  lemma ValidUtf8Exactly(s: bytes)
    ensures ValidUtf8(s) <==> exists cs: seq<nat> :: AllScalars(cs) && s == EncodeScalars(cs)
  {
    hide CharLen, EncodeScalar, ValidUtf8;
    if ValidUtf8(s) {
      var cs := ValidIsScalars(s);
    }
    if cs: seq<nat> :| AllScalars(cs) && s == EncodeScalars(cs) {
      ScalarsAreValid(cs);
    }
  }

  // U+00E9 passes; its overlong neighbour, a surrogate and half a character do not.
  lemma Utf8Examples()
    ensures ValidUtf8([0xC3, 0xA9])
    ensures !ValidUtf8([0xC1, 0xA9]) && !ValidUtf8([0xED, 0xA0, 0x80]) && !ValidUtf8([0xC3])
  {
    assert [0xC3, 0xA9][2..] == [];
  }
}
