/** The UTF-8 check of the emitted code, and what it accepts: section 4 of RFC 3629. */
module Utf8 {
  import opened Bytes

  /* -------------------------------------------------------- the check itself */

  /** How many continuation bytes a first byte asks for; None if no character starts so. */
  function Continuations(first: Byte): (n: Option<nat>)
    ensures n.Some? ==> n.value <= 3
  {
    if first <= 0x7f then Some(0)
    else if 0xc2 <= first <= 0xdf then Some(1)
    else if 0xe0 <= first <= 0xef then Some(2)
    else if 0xf0 <= first <= 0xf4 then Some(3)
    else None
  }

  function SecondMin(first: Byte): Byte {
    if first == 0xe0 then 0xa0 else if first == 0xf0 then 0x90 else 0x80
  }

  function SecondMax(first: Byte): Byte {
    if first == 0xed then 0x9f else if first == 0xf4 then 0x8f else 0xbf
  }

  predicate IsTail(b: Byte) {
    0x80 <= b <= 0xbf
  }

  /** The input starts with one whole character of `n` continuation bytes. */
  predicate Character(input: seq<Byte>, n: nat)
    requires input != []
  {
    && |input| > n
    && (n >= 1 ==> SecondMin(input[0]) <= input[1] <= SecondMax(input[0]))
    && (forall k :: 2 <= k <= n ==> IsTail(input[k]))
  }

  predicate Valid(input: seq<Byte>) {
    input == [] ||
    match Continuations(input[0])
    case None => false
    case Some(n) => Character(input, n) && Valid(input[n + 1..])
  }

  /** The scan over the bytes, one character a round. */
  method ValidUtf8(input: seq<Byte>) returns (ok: bool)
    ensures ok <==> Valid(input)
  {
    var index := 0;
    while index < |input|
      invariant index <= |input|
      invariant Valid(input) <==> Valid(input[index..])
    {
      ghost var left := input[index..];
      var first := input[index];
      index := index + 1;
      if first <= 0x7f {
        assert left[1..] == input[index..];
        continue;
      }
      var continuation := 0;
      if 0xc2 <= first <= 0xdf { continuation := 1; }
      else if 0xe0 <= first <= 0xef { continuation := 2; }
      else if 0xf0 <= first <= 0xf4 { continuation := 3; }
      else { return false; }
      if |input| - index < continuation { return false; }
      var second := input[index];
      assert left[1] == second;
      index := index + 1;
      if second < SecondMin(first) || second > SecondMax(first) { return false; }
      var remaining := 1;
      while remaining < continuation
        invariant 1 <= remaining <= continuation
        invariant index + continuation - remaining <= |input| && |input| - |left| + 1 + remaining == index
        invariant forall k :: 2 <= k <= remaining ==> IsTail(left[k])
      {
        var byte := input[index];
        assert left[remaining + 1] == byte;
        index := index + 1;
        if byte < 0x80 || byte > 0xbf { return false; }
        remaining := remaining + 1;
      }
      assert Character(left, continuation);
      assert left[continuation + 1..] == input[index..];
    }
    return true;
  }

  /* -------------------------------------------- the encoding the RFC defines */

  /** A Unicode scalar value: any code point but the surrogates. */
  predicate IsScalar(c: int) {
    0 <= c <= 0xd7ff || 0xe000 <= c <= 0x10ffff
  }

  function Encoded(c: int): (bytes: seq<Byte>)
    requires IsScalar(c)
    ensures bytes != []
  {
    if c < 0x80 then [c]
    else if c < 0x800 then [0xc0 + c / 64, 0x80 + c % 64]
    else if c < 0x10000 then [0xe0 + c / 4096, 0x80 + c / 64 % 64, 0x80 + c % 64]
    else [0xf0 + c / 262144, 0x80 + c / 4096 % 64, 0x80 + c / 64 % 64, 0x80 + c % 64]
  }

  ghost predicate IsText(text: seq<int>) {
    forall k :: 0 <= k < |text| ==> IsScalar(text[k])
  }

  function EncodedAll(text: seq<int>): seq<Byte>
    requires IsText(text)
  {
    if text == [] then [] else Encoded(text[0]) + EncodedAll(text[1..])
  }

  function Join2(a: int, b: int): int {
    (a - 0xc0) * 64 + (b - 0x80)
  }

  function Join3(a: int, b: int, d: int): int {
    (a - 0xe0) * 4096 + (b - 0x80) * 64 + (d - 0x80)
  }

  function Join4(a: int, b: int, d: int, e: int): int {
    (a - 0xf0) * 262144 + (b - 0x80) * 4096 + (d - 0x80) * 64 + (e - 0x80)
  }

  lemma TwoBytes(a: Byte, b: Byte)
    requires 0xc2 <= a <= 0xdf && IsTail(b)
    ensures IsScalar(Join2(a, b)) && Encoded(Join2(a, b)) == [a, b]
  {
  }

  lemma ThreeBytes(a: Byte, b: Byte, d: Byte)
    requires 0xe0 <= a <= 0xef && SecondMin(a) <= b <= SecondMax(a) && IsTail(d)
    ensures IsScalar(Join3(a, b, d)) && Encoded(Join3(a, b, d)) == [a, b, d]
  {
    assert Join3(a, b, d) / 64 == (a - 0xe0) * 64 + (b - 0x80);
  }

  lemma FourBytes(a: Byte, b: Byte, d: Byte, e: Byte)
    requires 0xf0 <= a <= 0xf4 && SecondMin(a) <= b <= SecondMax(a) && IsTail(d) && IsTail(e)
    ensures IsScalar(Join4(a, b, d, e)) && Encoded(Join4(a, b, d, e)) == [a, b, d, e]
  {
    var top := (a - 0xf0) * 64 + (b - 0x80);
    var middle := top * 64 + (d - 0x80);
    Sixes(a - 0xf0, b - 0x80);
    Sixes(top, d - 0x80);
    Sixes(middle, e - 0x80);
    assert Join4(a, b, d, e) == middle * 64 + (e - 0x80);
    SixesNest(Join4(a, b, d, e));
  }

  lemma Sixes(high: int, low: int)
    requires 0 <= low < 64
    ensures (high * 64 + low) / 64 == high && (high * 64 + low) % 64 == low
  {
  }

  lemma SixesNest(c: int)
    ensures c / 4096 == c / 64 / 64 && c / 262144 == c / 64 / 64 / 64
  {
  }

  /** What one step of the check accepts is the encoding of one scalar value. */
  lemma FirstIsEncoded(input: seq<Byte>, n: nat) returns (c: int)
    requires input != [] && Continuations(input[0]) == Some(n) && Character(input, n)
    ensures IsScalar(c) && Encoded(c) == input[..n + 1]
  {
    if n == 0 {
      c := input[0];
    } else if n == 1 {
      c := Join2(input[0], input[1]);
      TwoBytes(input[0], input[1]);
    } else if n == 2 {
      c := Join3(input[0], input[1], input[2]);
      ThreeBytes(input[0], input[1], input[2]);
    } else {
      c := Join4(input[0], input[1], input[2], input[3]);
      FourBytes(input[0], input[1], input[2], input[3]);
    }
  }

  lemma EncodedCons(c: int, rest: seq<int>)
    requires IsScalar(c) && IsText(rest)
    ensures IsText([c] + rest) && EncodedAll([c] + rest) == Encoded(c) + EncodedAll(rest)
  {
    assert ([c] + rest)[1..] == rest;
  }

  /** Everything accepted is the encoding of a sequence of scalar values. */
  lemma {:induction false} ValidIsEncoded(input: seq<Byte>) returns (text: seq<int>)
    requires Valid(input)
    ensures IsText(text) && EncodedAll(text) == input
  {
    if input == [] {
      text := [];
    } else {
      var n := Continuations(input[0]).value;
      var rest := ValidIsEncoded(input[n + 1..]);
      var first := FirstIsEncoded(input, n);
      text := [first] + rest;
      Rejoined(input, n + 1, first, rest);
    }
  }

  lemma Rejoined(input: seq<Byte>, n: nat, first: int, rest: seq<int>)
    requires n <= |input| && IsScalar(first) && Encoded(first) == input[..n]
    requires IsText(rest) && EncodedAll(rest) == input[n..]
    ensures IsText([first] + rest) && EncodedAll([first] + rest) == input
  {
    EncodedCons(first, rest);
    Whole(input, n);
  }

  lemma Whole(input: seq<Byte>, n: nat)
    requires n <= |input|
    ensures input[..n] + input[n..] == input
  {
  }

  lemma EncodedIsCharacter(c: int, rest: seq<Byte>)
    requires IsScalar(c)
    ensures Continuations(Encoded(c)[0]) == Some(|Encoded(c)| - 1)
    ensures Character(Encoded(c) + rest, |Encoded(c)| - 1)
  {
    var s := Encoded(c) + rest;
    assert forall k :: 0 <= k < |Encoded(c)| ==> s[k] == Encoded(c)[k];
  }

  /** The encoding of every sequence of scalar values is accepted. */
  lemma {:induction false} EncodedIsValid(text: seq<int>)
    requires IsText(text)
    ensures Valid(EncodedAll(text))
  {
    if text != [] {
      EncodedIsValid(text[1..]);
      EncodedIsCharacter(text[0], EncodedAll(text[1..]));
      var s := EncodedAll(text);
      assert s[|Encoded(text[0])|..] == EncodedAll(text[1..]);
    }
  }
}
