/** Valid UTF-8 is exactly what RFC 3629 encodes: a second definition, by scalar values, that agrees with the first. */
module Utf8Scalars {
  import opened Basics
  import opened Utf8

  /** A Unicode scalar value: a code point up to U+10FFFF that is no surrogate. */
  type Scalar = n: int | 0 <= n <= 0xD7FF || 0xE000 <= n <= 0x10FFFF

  /** The encoding of one scalar value, section 3 of RFC 3629: six bits to every byte after the first. */
  function Encode(n: Scalar): (r: Bytes)
    ensures 1 <= |r| <= 4
  {
    if n < 0x80 then [n]
    else if n < 0x800 then [0xC0 + n / 64, 0x80 + n % 64]
    else if n < 0x1_0000 then [0xE0 + n / 64 / 64, 0x80 + n / 64 % 64, 0x80 + n % 64]
    else [0xF0 + n / 64 / 64 / 64, 0x80 + n / 64 / 64 % 64, 0x80 + n / 64 % 64, 0x80 + n % 64]
  }

  function EncodeAll(scalars: seq<Scalar>): Bytes {
    if scalars == [] then [] else Encode(scalars[0]) + EncodeAll(scalars[1..])
  }

  /** Six more bits. */
  function Push(high: int, b: byte): int {
    64 * high + (b - 0x80)
  }

  lemma PushSplits(high: int, b: byte)
    requires Continuation(b)
    ensures Push(high, b) / 64 == high && Push(high, b) % 64 == b - 0x80
  {
  }

  /** The scalar value that `s` starts with. */
  function DecodeFirst(s: Bytes): int
    requires CharLen(s) > 0
  {
    var lead: int := s[0];
    match CharLen(s)
    case 1 => lead
    case 2 => Push(lead - 0xC0, s[1])
    case 3 => Push(Push(lead - 0xE0, s[1]), s[2])
    case _ => Push(Push(Push(lead - 0xF0, s[1]), s[2]), s[3])
  }

  lemma EncodedIsCharacter(n: Scalar, rest: Bytes)
    ensures CharLen(Encode(n) + rest) == |Encode(n)|
  {
  }

  predicate IsScalar(n: int) {
    0 <= n <= 0xD7FF || 0xE000 <= n <= 0x10FFFF
  }

  lemma TwoBytes(s: Bytes)
    requires CharLen(s) == 2
    ensures IsScalar(DecodeFirst(s)) && Encode(DecodeFirst(s)) == s[..2]
  {
    PushSplits(s[0] as int - 0xC0, s[1]);
  }

  lemma ThreeBytes(s: Bytes)
    requires CharLen(s) == 3
    ensures IsScalar(DecodeFirst(s)) && Encode(DecodeFirst(s)) == s[..3]
  {
    var high := Push(s[0] as int - 0xE0, s[1]);
    PushSplits(s[0] as int - 0xE0, s[1]);
    PushSplits(high, s[2]);
    ThreeByteRange(s[0], s[1], s[2]);
  }

  lemma ThreeByteRange(b0: byte, b1: byte, b2: byte)
    requires ThreeByteLead(b0, b1) && Continuation(b2)
    ensures var n := Push(Push(b0 as int - 0xE0, b1), b2); 0x800 <= n < 0x1_0000 && IsScalar(n)
  {
  }

  lemma FourBytes(s: Bytes)
    requires CharLen(s) == 4
    ensures IsScalar(DecodeFirst(s)) && Encode(DecodeFirst(s)) == s[..4]
  {
    var first := Push(s[0] as int - 0xF0, s[1]);
    var second := Push(first, s[2]);
    PushSplits(s[0] as int - 0xF0, s[1]);
    PushSplits(first, s[2]);
    PushSplits(second, s[3]);
    FourByteRange(s[0], s[1], s[2], s[3]);
  }

  lemma FourByteRange(b0: byte, b1: byte, b2: byte, b3: byte)
    requires FourByteLead(b0, b1) && Continuation(b2) && Continuation(b3)
    ensures var n := Push(Push(Push(b0 as int - 0xF0, b1), b2), b3); 0x1_0000 <= n <= 0x10FFFF
  {
  }

  lemma CharacterIsEncoded(s: Bytes)
    requires CharLen(s) > 0
    ensures IsScalar(DecodeFirst(s)) && Encode(DecodeFirst(s)) == s[..CharLen(s)]
  {
    if CharLen(s) == 2 {
      TwoBytes(s);
    } else if CharLen(s) == 3 {
      ThreeBytes(s);
    } else if CharLen(s) == 4 {
      FourBytes(s);
    }
  }

  lemma {:induction false} EncodedIsValid(scalars: seq<Scalar>)
    ensures Valid(EncodeAll(scalars))
  {
    if scalars != [] {
      var first, rest := Encode(scalars[0]), EncodeAll(scalars[1..]);
      EncodedIsValid(scalars[1..]);
      EncodedIsCharacter(scalars[0], rest);
      assert (first + rest)[|first|..] == rest;
    }
  }

  lemma {:induction false} ValidIsEncoded(s: Bytes) returns (scalars: seq<Scalar>)
    requires Valid(s)
    ensures EncodeAll(scalars) == s
  {
    if s == [] {
      scalars := [];
    } else {
      var n := CharLen(s);
      CharacterIsEncoded(s);
      var rest := ValidIsEncoded(s[n..]);
      scalars := [DecodeFirst(s)] + rest;
      assert scalars[1..] == rest && s == s[..n] + s[n..];
    }
  }

  /** Bytes are text exactly if they encode some scalar values. */
  lemma ValidIff(s: Bytes)
    ensures Valid(s) <==> exists scalars :: EncodeAll(scalars) == s
  {
    if Valid(s) {
      var scalars := ValidIsEncoded(s);
    }
    if scalars :| EncodeAll(scalars) == s {
      EncodedIsValid(scalars);
    }
  }
}
