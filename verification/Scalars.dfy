/**
 The scalar field types of the bounded profile: how a value becomes the word on the wire and
 back. Floating-point values are their bit patterns, as the emitted code treats them.
 */
module Scalars {
  import opened Bytes
  import opened LittleEndian
  import opened Varint

  datatype Scalar =
    | Int32 | Int64 | UInt32 | UInt64 | SInt32 | SInt64 | Boolean | Enumeration
    | Fixed32 | Fixed64 | SFixed32 | SFixed64 | Float | Double

  const TWO_32 := U32_MAX + 1
  const TWO_64 := U64_MAX + 1

  predicate Signed(n: int, modulus: int) {
    -(modulus / 2) <= n < modulus / 2
  }

  predicate InRange(s: Scalar, n: int) {
    match s
    case Int32 | SInt32 | Enumeration | SFixed32 => Signed(n, TWO_32)
    case Int64 | SInt64 | SFixed64 => Signed(n, TWO_64)
    case UInt32 | Fixed32 | Float => 0 <= n < TWO_32
    case UInt64 | Fixed64 | Double => 0 <= n < TWO_64
    case Boolean => n == 0 || n == 1
  }

  function WireType(s: Scalar): (wire: nat)
    ensures wire == 0 || wire == 1 || wire == 5
  {
    match s
    case Fixed32 | SFixed32 | Float => 5
    case Fixed64 | SFixed64 | Double => 1
    case _ => 0
  }

  /** The generator's bound on the bytes of one scalar. */
  function MaxSize(s: Scalar): nat {
    match s
    case Int32 | Int64 | UInt64 | Enumeration | SInt64 => 10
    case UInt32 | SInt32 => 5
    case Boolean => 1
    case Fixed32 | SFixed32 | Float => 4
    case Fixed64 | SFixed64 | Double => 8
  }

  /* --------------------------------------------------- two's complement, zigzag */

  function Bits(n: int, modulus: nat): (bits: nat)
    requires 0 <= n + modulus && n < modulus
    ensures bits < modulus
  {
    if n < 0 then n + modulus else n
  }

  function FromBits(bits: nat, modulus: nat): int {
    if bits >= modulus / 2 then bits - modulus else bits
  }

  /** A left shift by one; the bit shifted out is lost. */
  function Doubled(word: nat, modulus: nat): (w: nat)
    requires word < modulus
    ensures w < modulus
  {
    if 2 * word < modulus then 2 * word else 2 * word - modulus
  }

  /** Exclusive or with a word of all zeros or all ones. */
  function Flip(word: nat, ones: bool, modulus: nat): (w: nat)
    requires word < modulus
    ensures w < modulus
  {
    if ones then modulus - 1 - word else word
  }

  function ZigZag(n: int, modulus: nat): (word: nat)
    requires Signed(n, modulus)
    ensures word < modulus
  {
    var bits := Bits(n, modulus);
    Flip(Doubled(bits, modulus), bits >= modulus / 2, modulus)
  }

  function UnZigZag(word: nat, modulus: nat): int
    requires word < modulus
  {
    FromBits(Flip(word / 2, word % 2 == 1, modulus), modulus)
  }

  /** ZigZag numbers 0, -1, 1, -2, 2, ... in that order, for either width. */
  lemma ZigZagOrder(n: int, modulus: nat)
    requires modulus == TWO_32 || modulus == TWO_64
    requires Signed(n, modulus)
    ensures ZigZag(n, modulus) == if n >= 0 then 2 * n else -2 * n - 1
  {
  }

  lemma ZigZagReadsBack(n: int, modulus: nat)
    requires modulus == TWO_32 || modulus == TWO_64
    requires Signed(n, modulus)
    ensures UnZigZag(ZigZag(n, modulus), modulus) == n
  {
    ZigZagOrder(n, modulus);
  }

  /* -------------------------------------------------------------- raw words */

  function Raw(s: Scalar, n: int): (raw: nat)
    requires InRange(s, n)
    ensures raw < TWO_64
    ensures WireType(s) == 5 ==> raw < TWO_32
  {
    match s
    case Int32 | Int64 | Enumeration | SFixed64 => Bits(n, TWO_64)
    case SFixed32 => Bits(n, TWO_32)
    case SInt32 => ZigZag(n, TWO_32)
    case SInt64 => ZigZag(n, TWO_64)
    case _ => n
  }

  function FromRaw(s: Scalar, raw: nat): (n: int)
    requires raw < TWO_64 && (WireType(s) == 5 ==> raw < TWO_32)
    ensures InRange(s, n)
  {
    match s
    case Boolean => if raw != 0 then 1 else 0
    case Int32 | Enumeration => FromBits(raw % TWO_32, TWO_32)
    case UInt32 => raw % TWO_32
    case SInt32 => UnZigZag(raw % TWO_32, TWO_32)
    case SInt64 => UnZigZag(raw, TWO_64)
    case Int64 | SFixed64 => FromBits(raw, TWO_64)
    case SFixed32 => FromBits(raw, TWO_32)
    case _ => raw
  }

  lemma RawReadsBack(s: Scalar, n: int)
    requires InRange(s, n)
    ensures FromRaw(s, Raw(s, n)) == n
  {
    match s
    case Int32 | Enumeration => SignExtension(n);
    case SInt32 => ZigZagReadsBack(n, TWO_32); BelowModulus(ZigZag(n, TWO_32));
    case SInt64 => ZigZagReadsBack(n, TWO_64);
    case UInt32 => BelowModulus(n);
    case _ =>
  }

  lemma BelowModulus(word: nat)
    requires word < TWO_32
    ensures word % TWO_32 == word
  {
  }

  /** A 32-bit value sent as 64 bits comes back from the low half. */
  lemma SignExtension(n: int)
    requires Signed(n, TWO_32)
    ensures FromBits(Bits(n, TWO_64) % TWO_32, TWO_32) == n
  {
    if n < 0 { assert n + TWO_64 == (n + TWO_32) + TWO_32 * (TWO_32 - 1); }
  }

  /* ------------------------------------------------------------------- bytes */

  /** A raw word as its wire type has it. */
  function WordBytes(wire: nat, raw: nat): (bytes: seq<Byte>)
    ensures bytes != []
  {
    if wire == 0 then VarintBytes(raw) else if wire == 5 then ToLe(raw, 4) else ToLe(raw, 8)
  }

  function ScalarBytes(s: Scalar, n: int): (bytes: seq<Byte>)
    requires InRange(s, n)
    ensures bytes != []
  {
    WordBytes(WireType(s), Raw(s, n))
  }

  function TakeWord(wire: nat, input: seq<Byte>): (t: Taken<nat>)
    ensures t.Taken? ==> |t.rest| < |input|
  {
    if wire == 0 then TakeVarint(input, 0)
    else if wire == 5 then TakeFixed(input, 4)
    else TakeFixed(input, 8)
  }

  lemma WordFits(wire: nat, input: seq<Byte>)
    ensures TakeWord(wire, input).Taken? ==>
              && TakeWord(wire, input).value < TWO_64
              && (wire == 5 ==> TakeWord(wire, input).value < TWO_32)
  {
    TakenIs64Bits(input);
    Widths();
    if |input| >= 4 { LeBounded(input[..4]); }
    if |input| >= 8 { LeBounded(input[..8]); }
  }

  function TakeScalar(s: Scalar, input: seq<Byte>): (t: Taken<int>)
    ensures t.Taken? ==> |t.rest| < |input| && InRange(s, t.value)
  {
    WordFits(WireType(s), input);
    match TakeWord(WireType(s), input)
    case Short => Short
    case Taken(raw, rest) => Taken(FromRaw(s, raw), rest)
  }

  lemma WordReadsBack(wire: nat, raw: nat, rest: seq<Byte>)
    requires raw < TWO_64 && (wire == 5 ==> raw < TWO_32)
    ensures TakeWord(wire, WordBytes(wire, raw) + rest) == Taken(raw, rest)
  {
    Widths();
    if wire == 0 { VarintReadsBack(raw, rest); }
    else if wire == 5 { FixedReadsBack(raw, 4, rest); }
    else { FixedReadsBack(raw, 8, rest); }
  }

  /** Every value of the type reads back, whatever follows it. */
  lemma ScalarReadsBack(s: Scalar, n: int, rest: seq<Byte>)
    requires InRange(s, n)
    ensures TakeScalar(s, ScalarBytes(s, n) + rest) == Taken(n, rest)
  {
    RawReadsBack(s, n);
    WordReadsBack(WireType(s), Raw(s, n), rest);
  }

  /** No value of the type takes more bytes than the generator reserves for it. */
  lemma ScalarFits(s: Scalar, n: int)
    requires InRange(s, n)
    ensures |ScalarBytes(s, n)| <= MaxSize(s)
  {
    VarintWidths(Raw(s, n));
    if s.SInt32? { ZigZagOrder(n, TWO_32); }
  }
}
