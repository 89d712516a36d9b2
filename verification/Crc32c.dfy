/**
 CRC-32C (the polynomial of section 12.1 of RFC 3720, reflected): the bit-at-a-time
 computation and the error bursts it is certain to detect.
 */
module Crc32c {
  import opened Bytes
  import opened LittleEndian

  const POLYNOMIAL: bv32 := 0x82f63b78

  /** One shift of the register; the polynomial is applied when a one falls out. */
  function Step(crc: bv32): bv32 {
    if crc & 1 == 1 then (crc >> 1) ^ POLYNOMIAL else crc >> 1
  }

  function Steps(crc: bv32, n: nat): bv32 {
    if n == 0 then crc else Step(Steps(crc, n - 1))
  }

  function Step8(crc: bv32): bv32 {
    Step(Step(Step(Step(Step(Step(Step(Step(crc))))))))
  }

  function Word(b: Byte): bv32 {
    (b as bv8) as bv32
  }

  /** The bytes as the words that are mixed into the register. */
  function Words(input: seq<Byte>): (words: seq<bv32>)
    ensures |words| == |input|
    ensures forall i :: 0 <= i < |input| ==> words[i] == Word(input[i])
  {
    seq(|input|, i requires 0 <= i < |input| => Word(input[i]))
  }

  function Update(crc: bv32, word: bv32): bv32 {
    Step8(crc ^ word)
  }

  /** The register after mixing in `words`, starting from `crc`. */
  function Register(crc: bv32, words: seq<bv32>): bv32
    decreases words
  {
    if words == [] then crc else Register(Update(crc, words[0]), words[1..])
  }

  /** The checksum of a byte string. */
  function Checksum(input: seq<Byte>): bv32 {
    !Register(0xffff_ffff, Words(input))
  }

  /** The inner loop: mix one word in, bit by bit. */
  method Mix(register: bv32, word: bv32) returns (crc: bv32)
    ensures crc == Update(register, word)
  {
    crc := register ^ word;
    ghost var mixed := crc;
    for bit := 0 to 8
      invariant crc == Steps(mixed, bit)
    {
      crc := if crc & 1 == 1 then (crc >> 1) ^ POLYNOMIAL else crc >> 1;
    }
    EightSteps(mixed);
  }

  method Compute(input: seq<Byte>) returns (checksum: bv32)
    ensures checksum == Checksum(input)
  {
    var crc: bv32 := 0xffff_ffff;
    ghost var words := Words(input);
    for i := 0 to |input|
      invariant Register(crc, words[i..]) == Register(0xffff_ffff, words)
    {
      assert words[i..][1..] == words[i + 1..];
      crc := Mix(crc, Word(input[i]));
    }
    checksum := !crc;
  }

  lemma EightSteps(crc: bv32)
    ensures Steps(crc, 8) == Step8(crc)
  {
    var two, four, six := Steps(crc, 2), Steps(crc, 4), Steps(crc, 6);
    assert two == Step(Steps(crc, 1)) == Step(Step(crc));
    assert four == Step(Steps(crc, 3)) == Step(Step(two));
    assert six == Step(Steps(crc, 5)) == Step(Step(four));
    assert Steps(crc, 8) == Step(Steps(crc, 7)) == Step(Step(six));
  }

  /* -------------------------------------------------- linearity, invertibility */

  lemma ShiftXor(a: bv32, b: bv32)
    ensures (a ^ b) >> 1 == (a >> 1) ^ (b >> 1)
  {
  }

  lemma ParityXor(a: bv32, b: bv32)
    ensures (a ^ b) & 1 == 1 <==> (a & 1 == 1) != (b & 1 == 1)
  {
  }

  lemma XorMoves(x: bv32, y: bv32, p: bv32)
    ensures (x ^ y) ^ p == (x ^ p) ^ y == x ^ (y ^ p)
    ensures (x ^ p) ^ (y ^ p) == x ^ y
  {
  }

  lemma StepLinear(a: bv32, b: bv32)
    ensures Step(a ^ b) == Step(a) ^ Step(b)
  {
    ShiftXor(a, b);
    ParityXor(a, b);
    XorMoves(a >> 1, b >> 1, POLYNOMIAL);
  }

  /** `d` is the bitwise difference of `a` and `b`. */
  predicate Differ(a: bv32, b: bv32, d: bv32) {
    a ^ b == d
  }

  lemma StepDiffer(a: bv32, b: bv32, d: bv32)
    requires Differ(a, b, d)
    ensures Differ(Step(a), Step(b), Step(d))
  {
    StepLinear(a, b);
  }

  lemma Step2Differ(a: bv32, b: bv32, d: bv32)
    requires Differ(a, b, d)
    ensures Differ(Step(Step(a)), Step(Step(b)), Step(Step(d)))
  {
    StepDiffer(a, b, d);
    StepDiffer(Step(a), Step(b), Step(d));
  }

  /** The byte step is linear: differences go through it on their own. */
  lemma Step8Differ(a: bv32, b: bv32, d: bv32)
    requires Differ(a, b, d)
    ensures Differ(Step8(a), Step8(b), Step8(d))
  {
    Step2Differ(a, b, d);
    var a2, b2, d2 := Step(Step(a)), Step(Step(b)), Step(Step(d));
    Step2Differ(a2, b2, d2);
    var a4, b4, d4 := Step(Step(a2)), Step(Step(b2)), Step(Step(d2));
    Step2Differ(a4, b4, d4);
    var a6, b6, d6 := Step(Step(a4)), Step(Step(b4)), Step(Step(d4));
    Step2Differ(a6, b6, d6);
  }

  lemma Step8Kernel(a: bv32)
    requires Step8(a) == 0
    ensures a == 0
  {
  }

  /** A byte's worth of shifts only moves the register down while the low byte is clear. */
  lemma Step8Moves(low: bv32)
    requires low <= 0x00ff_ffff
    ensures Step8(low << 8) == low
  {
  }

  lemma DifferUnique(a: bv32, b: bv32, d: bv32, e: bv32)
    requires Differ(a, b, d) && Differ(a, b, e)
    ensures d == e
  {
  }

  lemma DifferZero(a: bv32, b: bv32)
    ensures Differ(a, b, 0) <==> a == b
  {
    if a == b { DifferSelf(a); } else { DifferSome(a, b); }
  }

  lemma DifferSelf(a: bv32)
    ensures Differ(a, a, 0)
  {
  }

  lemma DifferSome(a: bv32, b: bv32)
    requires a != b
    ensures !Differ(a, b, 0)
  {
  }

  lemma Step8Injective(a: bv32, b: bv32)
    requires Step8(a) == Step8(b)
    ensures a == b
  {
    var d := a ^ b;
    Step8Differ(a, b, d);
    DifferZero(Step8(a), Step8(b));
    DifferUnique(Step8(a), Step8(b), Step8(d), 0);
    Step8Kernel(d);
    DifferZero(a, b);
  }

  lemma WordInjective(a: Byte, b: Byte)
    requires Word(a) == Word(b)
    ensures a == b
  {
    ByteRoundTrip(a);
    ByteRoundTrip(b);
    WidenInjective(a as bv8, b as bv8);
  }

  /** A byte counted up from zero, where each step is easy to follow in both arithmetics. */
  function Unary(b: Byte): bv8 {
    if b == 0 then 0 else Unary(b - 1) + 1
  }

  lemma Increment(x: bv8)
    requires x < 255
    ensures (x + 1) as int == x as int + 1
  {
  }

  lemma BelowTop(x: bv8)
    requires x as int < 255
    ensures x < 255
  {
  }

  lemma {:induction false} UnaryValue(b: Byte)
    ensures Unary(b) as int == b
  {
    if b > 0 {
      UnaryValue(b - 1);
      BelowTop(Unary(b - 1));
      Increment(Unary(b - 1));
    }
  }

  lemma BackAndForth(x: bv8)
    ensures (x as int) as bv8 == x
  {
  }

  lemma ByteRoundTrip(b: Byte)
    ensures (b as bv8) as int == b
  {
    UnaryValue(b);
    BackAndForth(Unary(b));
  }

  lemma WidenInjective(a: bv8, b: bv8)
    requires a as bv32 == b as bv32
    ensures a == b
  {
  }

  lemma WordSmall(b: Byte)
    ensures Word(b) <= 0xff
  {
  }

  /* ------------------------------------------------------- burst detection */

  lemma XorCancel(a: bv32, b: bv32, x: bv32)
    requires a ^ x == b ^ x
    ensures a == b
  {
  }

  lemma UpdateInjective(c: bv32, d: bv32, w: bv32)
    requires Update(c, w) == Update(d, w)
    ensures c == d
  {
    Step8Injective(c ^ w, d ^ w);
    XorCancel(c, d, w);
  }

  /** Equal words never make two different registers meet. */
  lemma {:induction false} SuffixKeepsDifference(c: bv32, d: bv32, words: seq<bv32>)
    requires c != d
    ensures Register(c, words) != Register(d, words)
    decreases words
  {
    if words != [] {
      if Update(c, words[0]) == Update(d, words[0]) { UpdateInjective(c, d, words[0]); }
      SuffixKeepsDifference(Update(c, words[0]), Update(d, words[0]), words[1..]);
    }
  }

  lemma {:induction false} RegisterConcat(crc: bv32, a: seq<bv32>, b: seq<bv32>)
    ensures Register(crc, a + b) == Register(Register(crc, a), b)
    decreases a
  {
    if a == [] {
      assert a + b == b;
    } else {
      assert (a + b)[1..] == a[1..] + b;
      RegisterConcat(Update(crc, a[0]), a[1..], b);
    }
  }

  function Pack(x: bv32, y: bv32, rest: bv32): bv32 {
    x ^ y ^ (rest << 8)
  }

  /** The difference of two short strings of bytes, packed little-endian into one word. */
  function Difference(x: seq<bv32>, y: seq<bv32>): bv32
    requires |x| == |y|
  {
    if x == [] then 0 else Pack(x[0], y[0], Difference(x[1..], y[1..]))
  }

  ghost predicate Small(words: seq<bv32>) {
    forall i :: 0 <= i < |words| ==> words[i] <= 0xff
  }

  /** n bytes fit in the low 8n bits. */
  predicate Fits(word: bv32, n: nat) {
    match n
    case 0 => word == 0
    case 1 => word <= 0xff
    case 2 => word <= 0xffff
    case 3 => word <= 0x00ff_ffff
    case _ => true
  }

  lemma PackFits(x: bv32, y: bv32, rest: bv32, n: nat)
    requires x <= 0xff && y <= 0xff && n <= 3 && Fits(rest, n)
    ensures Fits(Pack(x, y, rest), n + 1)
    ensures rest <= 0x00ff_ffff
  {
  }

  lemma {:induction false} DifferenceFits(x: seq<bv32>, y: seq<bv32>)
    requires |x| == |y| <= 4 && Small(x) && Small(y)
    ensures Fits(Difference(x, y), |x|)
  {
    if x != [] {
      DifferenceFits(x[1..], y[1..]);
      PackFits(x[0], y[0], Difference(x[1..], y[1..]), |x| - 1);
    }
  }

  lemma RestFits(x: seq<bv32>, y: seq<bv32>)
    requires 0 < |x| == |y| <= 4 && Small(x) && Small(y)
    ensures Difference(x[1..], y[1..]) <= 0x00ff_ffff
  {
    DifferenceFits(x[1..], y[1..]);
    PackFits(x[0], y[0], Difference(x[1..], y[1..]), |x| - 1);
  }

  lemma MixBack(p: bv32, q: bv32, rest: bv32)
    requires rest <= 0x00ff_ffff
    requires Differ(Step8(p), Step8(q), rest)
    ensures Differ(p, q, rest << 8)
  {
    var z := p ^ q;
    Step8Differ(p, q, z);
    DifferUnique(Step8(p), Step8(q), Step8(z), rest);
    Step8Moves(rest);
    Step8Injective(z, rest << 8);
  }

  lemma DifferPack(c: bv32, d: bv32, x: bv32, y: bv32, rest: bv32)
    requires Differ(c ^ x, d ^ y, rest << 8)
    ensures Differ(c, d, Pack(x, y, rest))
  {
  }

  lemma OneByteBack(c: bv32, d: bv32, x: bv32, y: bv32, rest: bv32)
    requires rest <= 0x00ff_ffff
    requires Differ(Update(c, x), Update(d, y), rest)
    ensures Differ(c, d, Pack(x, y, rest))
  {
    MixBack(c ^ x, d ^ y, rest);
    DifferPack(c, d, x, y, rest);
  }

  /** Registers that meet after at most four bytes differed by exactly those bytes' difference. */
  lemma {:induction false} MeetingPoint(c: bv32, d: bv32, x: seq<bv32>, y: seq<bv32>)
    requires |x| == |y| <= 4 && Small(x) && Small(y)
    requires Register(c, x) == Register(d, y)
    ensures Differ(c, d, Difference(x, y))
    decreases x
  {
    if x == [] {
      DifferZero(c, d);
    } else {
      MeetingPoint(Update(c, x[0]), Update(d, y[0]), x[1..], y[1..]);
      RestFits(x, y);
      OneByteBack(c, d, x[0], y[0], Difference(x[1..], y[1..]));
    }
  }

  lemma PackZero(x: bv32, y: bv32, rest: bv32)
    requires x <= 0xff && y <= 0xff && rest <= 0x00ff_ffff && Pack(x, y, rest) == 0
    ensures x == y && rest == 0
  {
  }

  lemma {:induction false} NoDifference(x: seq<bv32>, y: seq<bv32>)
    requires |x| == |y| <= 4 && Small(x) && Small(y) && Difference(x, y) == 0
    ensures x == y
  {
    if x != [] {
      DifferenceFits(x[1..], y[1..]);
      PackFits(x[0], y[0], Difference(x[1..], y[1..]), |x| - 1);
      PackZero(x[0], y[0], Difference(x[1..], y[1..]));
      NoDifference(x[1..], y[1..]);
      assert x == [x[0]] + x[1..] && y == [y[0]] + y[1..];
    }
  }

  lemma NotInjective(a: bv32, b: bv32)
    requires !a == !b
    ensures a == b
  {
  }

  /** The register tells two word strings apart that differ only in a window of four. */
  lemma WindowDetected(x: seq<bv32>, y: seq<bv32>, from: nat, to: nat)
    requires |x| == |y| && x != y && Small(x) && Small(y)
    requires from <= to <= |x| && to - from <= 4
    requires x[..from] == y[..from] && x[to..] == y[to..]
    ensures Register(0xffff_ffff, x) != Register(0xffff_ffff, y)
  {
    var wx, wy := x[from..to], y[from..to];
    if wx == wy { InThree(x, from, to); InThree(y, from, to); }
    WindowTold(Register(0xffff_ffff, x[..from]), wx, wy);
    WindowApart(x, y, from, to);
  }

  /** Windows that lead to different registers, with the same words around them. */
  lemma WindowApart(x: seq<bv32>, y: seq<bv32>, from: nat, to: nat)
    requires |x| == |y| && from <= to <= |x| && x[..from] == y[..from] && x[to..] == y[to..]
    requires Register(Register(0xffff_ffff, x[..from]), x[from..to])
          != Register(Register(0xffff_ffff, x[..from]), y[from..to])
    ensures Register(0xffff_ffff, x) != Register(0xffff_ffff, y)
  {
    InThree(x, from, to);
    InThree(y, from, to);
    RegisterAround(0xffff_ffff, x[..from], x[from..to], x[to..]);
    RegisterAround(0xffff_ffff, y[..from], y[from..to], y[to..]);
    var c := Register(0xffff_ffff, x[..from]);
    SuffixKeepsDifference(Register(c, x[from..to]), Register(c, y[from..to]), x[to..]);
  }

  lemma InThree(x: seq<bv32>, from: nat, to: nat)
    requires from <= to <= |x|
    ensures x[..from] + x[from..to] + x[to..] == x
  {
  }

  lemma RegisterAround(c: bv32, head: seq<bv32>, window: seq<bv32>, tail: seq<bv32>)
    ensures Register(c, head + window + tail) == Register(Register(Register(c, head), window), tail)
  {
    RegisterConcat(c, head + window, tail);
    RegisterConcat(c, head, window);
  }

  /** From one register value, different windows lead to different values. */
  lemma WindowTold(c: bv32, x: seq<bv32>, y: seq<bv32>)
    requires |x| == |y| <= 4 && x != y && Small(x) && Small(y)
    ensures Register(c, x) != Register(c, y)
  {
    if Register(c, x) == Register(c, y) {
      MeetingPoint(c, c, x, y);
      DifferZero(c, c);
      DifferUnique(c, c, Difference(x, y), 0);
      NoDifference(x, y);
    }
  }

  lemma WordsFaithful(x: seq<Byte>, y: seq<Byte>)
    requires |x| == |y| && x != y
    ensures Words(x) != Words(y)
  {
    var i :| 0 <= i < |x| && x[i] != y[i];
    if Word(x[i]) == Word(y[i]) { WordInjective(x[i], y[i]); }
    assert Words(x)[i] != Words(y)[i];
  }

  lemma WordsSmall(x: seq<Byte>)
    ensures Small(Words(x))
  {
    forall i | 0 <= i < |x| ensures Words(x)[i] <= 0xff { WordSmall(x[i]); }
  }

  /* ---------------------------------------------------------------- residue */

  function Above(low: bv32, rest: bv32): bv32 {
    low ^ (rest << 8)
  }

  /** Bytes packed little-endian into one word. */
  function Packed(words: seq<bv32>): bv32 {
    if words == [] then 0 else Above(words[0], Packed(words[1..]))
  }

  lemma {:induction false} FourWords(x: seq<bv32>)
    requires |x| == 4
    ensures Packed(x) == Above(x[0], Above(x[1], Above(x[2], Above(x[3], 0))))
  {
    assert x[3..][1..] == [] && x[2..][1..] == x[3..] && x[1..][1..] == x[2..];
    assert Packed(x[3..]) == Above(x[3], 0);
    assert Packed(x[2..]) == Above(x[2], Packed(x[3..]));
  }

  lemma FourBytes(a: bv8, b: bv8, c: bv8, d: bv8)
    ensures ((a as bv32) ^ (((b as bv32) ^ (((c as bv32) ^ ((d as bv32) << 8)) << 8)) << 8)) as int
         == a as int + 256 * (b as int + 256 * (c as int + 256 * d as int))
  {
  }

  lemma FourAbove(a: bv32, b: bv32, c: bv32, d: bv32)
    ensures Above(a, Above(b, Above(c, Above(d, 0)))) == a ^ ((b ^ ((c ^ (d << 8)) << 8)) << 8)
  {
  }

  function Le(a: nat, b: nat, c: nat, d: nat): nat {
    a + 256 * (b + 256 * (c + 256 * d))
  }

  lemma LeOfFour(bytes: seq<Byte>)
    requires |bytes| == 4
    ensures FromLe(bytes) == Le(bytes[0], bytes[1], bytes[2], bytes[3])
  {
    assert FromLe(bytes[3..]) == bytes[3] && FromLe(bytes[2..]) == bytes[2] + 256 * FromLe(bytes[3..]);
    assert FromLe(bytes[1..]) == bytes[1] + 256 * FromLe(bytes[2..]);
  }

  lemma AboveBytes(a: bv8, b: bv8, c: bv8, d: bv8)
    ensures Above(a as bv32, Above(b as bv32, Above(c as bv32, Above(d as bv32, 0)))) as int
         == Le(a as int, b as int, c as int, d as int)
  {
    FourAbove(a as bv32, b as bv32, c as bv32, d as bv32);
    FourBytes(a, b, c, d);
  }

  lemma AboveIsLe(a: Byte, b: Byte, c: Byte, d: Byte)
    ensures Above(Word(a), Above(Word(b), Above(Word(c), Above(Word(d), 0)))) as int == Le(a, b, c, d)
  {
    ByteRoundTrip(a);
    ByteRoundTrip(b);
    ByteRoundTrip(c);
    ByteRoundTrip(d);
    AboveBytes(a as bv8, b as bv8, c as bv8, d as bv8);
  }

  /** Packing bytes and reading them as a little-endian number is the same. */
  lemma PackedIsLe(bytes: seq<Byte>)
    requires |bytes| == 4
    ensures Packed(Words(bytes)) as int == FromLe(bytes)
  {
    FourWords(Words(bytes));
    LeOfFour(bytes);
    AboveIsLe(bytes[0], bytes[1], bytes[2], bytes[3]);
  }

  lemma FourDifferences(x: seq<bv32>, y: seq<bv32>)
    requires |x| == |y| == 4
    ensures Difference(x, y) == Pack(x[0], y[0], Pack(x[1], y[1], Pack(x[2], y[2], Pack(x[3], y[3], 0))))
  {
    assert Difference(x[4..], y[4..]) == 0 && x[3..][1..] == x[4..] && y[3..][1..] == y[4..];
    assert Difference(x[3..], y[3..]) == Pack(x[3], y[3], 0);
    assert x[2..][1..] == x[3..] && y[2..][1..] == y[3..];
    assert Difference(x[2..], y[2..]) == Pack(x[2], y[2], Difference(x[3..], y[3..]));
    assert x[1..][1..] == x[2..] && y[1..][1..] == y[2..];
  }

  lemma FourOnes(a: bv32, b: bv32, c: bv32, d: bv32)
    ensures Pack(a, 0xff, Pack(b, 0xff, Pack(c, 0xff, Pack(d, 0xff, 0))))
         == !Above(a, Above(b, Above(c, Above(d, 0))))
  {
  }

  const ONES: seq<bv32> := [0xff, 0xff, 0xff, 0xff]

  lemma OnesDifference(x: seq<bv32>)
    requires |x| == 4
    ensures Difference(x, ONES) == !Packed(x)
  {
    FourWords(x);
    FourDifferences(x, ONES);
    FourOnes(x[0], x[1], x[2], x[3]);
  }

  lemma PackDiffer(c: bv32, d: bv32, x: bv32, y: bv32, rest: bv32)
    requires Differ(c, d, Pack(x, y, rest))
    ensures Differ(c ^ x, d ^ y, rest << 8)
  {
  }

  lemma OneByteOn(c: bv32, d: bv32, x: bv32, y: bv32, rest: bv32)
    requires rest <= 0x00ff_ffff
    requires Differ(c, d, Pack(x, y, rest))
    ensures Differ(Update(c, x), Update(d, y), rest)
  {
    PackDiffer(c, d, x, y, rest);
    Step8Differ(c ^ x, d ^ y, rest << 8);
    Step8Moves(rest);
  }

  /** Registers that differ by exactly the difference of the next bytes meet after them. */
  lemma {:induction false} Meet(c: bv32, d: bv32, x: seq<bv32>, y: seq<bv32>)
    requires |x| == |y| <= 4 && Small(x) && Small(y)
    requires Differ(c, d, Difference(x, y))
    ensures Register(c, x) == Register(d, y)
    decreases x
  {
    if x == [] {
      DifferZero(c, d);
    } else {
      RestFits(x, y);
      OneByteOn(c, d, x[0], y[0], Difference(x[1..], y[1..]));
      Meet(Update(c, x[0]), Update(d, y[0]), x[1..], y[1..]);
    }
  }

  /** The register after any input followed by its own checksum. */
  function Residue(): bv32 {
    Register(0, ONES)
  }

  lemma DifferFromZero(c: bv32)
    ensures Differ(c, 0, !!c)
  {
  }

  lemma DifferBack(c: bv32, w: bv32)
    requires Differ(c, 0, !w)
    ensures w == !c
  {
  }

  lemma Cancels(c: bv32, x: seq<bv32>, y: seq<bv32>, w: bv32)
    requires |x| == |y| == 4 && Small(x) && Small(y) && Difference(x, y) == !w && w == !c
    ensures Register(c, x) == Register(0, y)
  {
    DifferFromZero(c);
    Meet(c, 0, x, y);
  }

  lemma OnlyThenCancels(c: bv32, x: seq<bv32>, y: seq<bv32>, w: bv32)
    requires |x| == |y| == 4 && Small(x) && Small(y) && Difference(x, y) == !w
    requires Register(c, x) == Register(0, y)
    ensures w == !c
  {
    MeetingPoint(c, 0, x, y);
    DifferBack(c, w);
  }

  lemma CancelsExactly(c: bv32, x: seq<bv32>, y: seq<bv32>, w: bv32)
    requires |x| == |y| == 4 && Small(x) && Small(y) && Difference(x, y) == !w
    ensures Register(c, x) == Register(0, y) <==> w == !c
  {
    if w == !c { Cancels(c, x, y, w); }
    if Register(c, x) == Register(0, y) { OnlyThenCancels(c, x, y, w); }
  }

  lemma WordRoundTrip(w: bv32)
    ensures (w as int) as bv32 == w
  {
  }

  lemma SameNumber(a: bv32, b: bv32)
    requires a as int == b as int
    ensures a == b
  {
    WordRoundTrip(a);
    WordRoundTrip(b);
  }

  lemma OnesSmall()
    ensures |ONES| == 4 && Small(ONES)
  {
  }

  lemma CheckCancels(c: bv32, check: seq<Byte>)
    requires |check| == 4
    ensures Register(c, Words(check)) == Residue() <==> FromLe(check) == (!c) as int
  {
    WordsSmall(check);
    OnesSmall();
    PackedIsLe(check);
    OnesDifference(Words(check));
    CancelsExactly(c, Words(check), ONES, Packed(Words(check)));
    if FromLe(check) == (!c) as int { SameNumber(Packed(Words(check)), !c); }
  }

  lemma WordsConcat(a: seq<Byte>, b: seq<Byte>)
    ensures Words(a + b) == Words(a) + Words(b)
  {
  }

  lemma CheckFollows(init: bv32, input: seq<Byte>, check: seq<Byte>)
    requires |check| == 4
    ensures Register(init, Words(input + check)) == Residue()
       <==> FromLe(check) == (!Register(init, Words(input))) as int
  {
    WordsConcat(input, check);
    RegisterConcat(init, Words(input), Words(check));
    CheckCancels(Register(init, Words(input)), check);
  }

  /** An input followed by four bytes leaves the residue exactly if they are its checksum. */
  lemma ResidueExactly(input: seq<Byte>, check: seq<Byte>)
    requires |check| == 4
    ensures Register(0xffff_ffff, Words(input + check)) == Residue() <==> FromLe(check) == Checksum(input) as int
  {
    CheckFollows(0xffff_ffff, input, check);
  }

  /* -------------------------------------------------- bursts that straddle bytes */

  /** Bit `k` of a byte, least significant first, the order in which the register takes them. */
  function BitMask(k: nat): bv32 {
    match k case 0 => 1 case 1 => 2 case 2 => 4 case 3 => 8 case 4 => 16 case 5 => 32 case 6 => 64 case _ => 128
  }

  /** The bits below `k`. */
  function LowMask(k: nat): bv32 {
    match k
    case 0 => 0 case 1 => 1 case 2 => 3 case 3 => 7 case 4 => 15 case 5 => 31 case 6 => 63 case 7 => 127
    case _ => 255
  }

  predicate SameBit(a: bv32, b: bv32, k: nat) {
    a & BitMask(k) == b & BitMask(k)
  }

  /** The strings have the same bits but for some of the 32 from bit `at` on. */
  ghost predicate DifferWithin(x: seq<Byte>, y: seq<Byte>, at: nat)
    requires |x| == |y|
  {
    forall i, k :: 0 <= i < |x| && 0 <= k < 8 && !(at <= 8 * i + k < at + 32) ==> SameBit(Word(x[i]), Word(y[i]), k)
  }

  /** The words agree on the bits of the mask. */
  predicate Agree(a: bv32, b: bv32, mask: bv32) {
    (a ^ b) & mask == 0
  }

  lemma OneBitMore(a: bv32, b: bv32, mask: bv32, bit: bv32)
    requires Agree(a, b, mask) && a & bit == b & bit
    ensures Agree(a, b, mask | bit)
  {
  }

  lemma OnBit(a: bv32, b: bv32, mask: bv32, k: nat, next: bv32)
    requires Agree(a, b, mask) && SameBit(a, b, k) && mask | BitMask(k) == next
    ensures Agree(a, b, next)
  {
    OneBitMore(a, b, mask, BitMask(k));
  }

  lemma MasksGrow(k: nat)
    requires k < 8
    ensures LowMask(k) | BitMask(k) == LowMask(k + 1)
  {
  }

  lemma {:induction false} LowBitsSame(a: bv32, b: bv32, s: nat)
    requires s <= 8 && forall k :: 0 <= k < s ==> SameBit(a, b, k)
    ensures Agree(a, b, LowMask(s))
  {
    if s == 0 {
      NoBits(a, b);
    } else {
      LowBitsSame(a, b, s - 1);
      MasksGrow(s - 1);
      OnBit(a, b, LowMask(s - 1), s - 1, LowMask(s));
    }
  }

  lemma NoBits(a: bv32, b: bv32)
    ensures Agree(a, b, 0)
  {
  }

  /** The bits of a byte from `k` on. */
  function HighMask(k: nat): bv32 {
    match k
    case 0 => 255 case 1 => 254 case 2 => 252 case 3 => 248 case 4 => 240 case 5 => 224 case 6 => 192 case 7 => 128
    case _ => 0
  }

  lemma HighMasksGrow(k: nat)
    requires k < 8
    ensures HighMask(k + 1) | BitMask(k) == HighMask(k)
  {
  }

  lemma {:induction false} HighBitsClear(a: bv32, b: bv32, s: nat)
    requires s <= 8 && forall k :: s <= k < 8 ==> SameBit(a, b, k)
    ensures Agree(a, b, HighMask(s))
    decreases 8 - s
  {
    if s == 8 {
      NoBits(a, b);
    } else {
      HighBitsClear(a, b, s + 1);
      HighMasksGrow(s);
      OnBit(a, b, HighMask(s + 1), s, HighMask(s));
    }
  }

  lemma ClearIsLow(a: bv32, b: bv32, s: nat)
    requires s < 8 && a ^ b <= 0xff && Agree(a, b, HighMask(s))
    ensures a ^ b <= LowMask(s)
  {
  }

  lemma HighBitsSame(a: bv32, b: bv32, s: nat)
    requires s < 8 && a <= 0xff && b <= 0xff && forall k :: s <= k < 8 ==> SameBit(a, b, k)
    ensures a ^ b <= LowMask(s)
  {
    HighBitsClear(a, b, s);
    XorSmall(a, b);
    ClearIsLow(a, b, s);
  }

  lemma XorZero(a: bv32, b: bv32)
    requires a ^ b <= 0
    ensures a == b
  {
  }

  lemma AllBitsSame(a: Byte, b: Byte)
    requires forall k :: 0 <= k < 8 ==> SameBit(Word(a), Word(b), k)
    ensures a == b
  {
    WordSmall(a);
    WordSmall(b);
    HighBitsSame(Word(a), Word(b), 0);
    XorZero(Word(a), Word(b));
    WordInjective(a, b);
  }

  /** A difference in the upper bits of a byte does not become one in the last bits of four more. */
  lemma Straddle(d: bv32, s: nat)
    requires s < 8 && d <= 0xff && d & LowMask(s) == 0
    requires Step8(d) >> 24 <= LowMask(s)
    ensures d == 0
  {
  }

  lemma TopByte(a: bv32, b: bv32, c: bv32, x: bv32, y: bv32)
    requires a <= 0xff && b <= 0xff && c <= 0xff && x <= 0xff && y <= 0xff
    ensures Above(a, Above(b, Above(c, Above(x ^ y, 0)))) >> 24 == x ^ y
  {
  }

  lemma PackIsAbove(x: bv32, y: bv32, rest: bv32)
    ensures Pack(x, y, rest) == Above(x ^ y, rest)
  {
  }

  lemma XorSmall(x: bv32, y: bv32)
    requires x <= 0xff && y <= 0xff
    ensures x ^ y <= 0xff
  {
  }

  lemma LastDifference(x: seq<bv32>, y: seq<bv32>)
    requires |x| == |y| == 4 && Small(x) && Small(y)
    ensures Difference(x, y) >> 24 == x[3] ^ y[3]
  {
    FourDifferences(x, y);
    PackIsAbove(x[3], y[3], 0);
    PackIsAbove(x[2], y[2], Pack(x[3], y[3], 0));
    PackIsAbove(x[1], y[1], Pack(x[2], y[2], Pack(x[3], y[3], 0)));
    PackIsAbove(x[0], y[0], Pack(x[1], y[1], Pack(x[2], y[2], Pack(x[3], y[3], 0))));
    XorSmall(x[0], y[0]);
    XorSmall(x[1], y[1]);
    XorSmall(x[2], y[2]);
    TopByte(x[0] ^ y[0], x[1] ^ y[1], x[2] ^ y[2], x[3], y[3]);
  }

  lemma XorCommon(c: bv32, x: bv32, y: bv32)
    ensures Differ(c ^ x, c ^ y, x ^ y)
  {
  }

  /** Five bytes whose differences span 32 bits at most lead one register value to different ones. */
  lemma StraddleTold(c: bv32, x: seq<bv32>, y: seq<bv32>, s: nat)
    requires |x| == |y| == 5 && Small(x) && Small(y) && x != y && s < 8
    requires Agree(x[0], y[0], LowMask(s)) && x[4] ^ y[4] <= LowMask(s)
    ensures Register(c, x) != Register(c, y)
  {
    if Register(c, x) == Register(c, y) {
      StraddleMeets(c, x[0], y[0], x[1..], y[1..], s);
      XorZero(x[0], y[0]);
      WindowTold(Update(c, x[0]), x[1..], y[1..]);
    }
  }

  lemma StraddleMeets(c: bv32, a: bv32, b: bv32, x: seq<bv32>, y: seq<bv32>, s: nat)
    requires |x| == |y| == 4 && Small(x) && Small(y) && a <= 0xff && b <= 0xff && s < 8
    requires Agree(a, b, LowMask(s)) && x[3] ^ y[3] <= LowMask(s)
    requires Register(Update(c, a), x) == Register(Update(c, b), y)
    ensures a ^ b == 0
  {
    MeetingPoint(Update(c, a), Update(c, b), x, y);
    XorCommon(c, a, b);
    Step8Differ(c ^ a, c ^ b, a ^ b);
    DifferUnique(Update(c, a), Update(c, b), Difference(x, y), Step8(a ^ b));
    LastDifference(x, y);
    XorSmall(a, b);
    Straddle(a ^ b, s);
  }

  /** Byte strings that differ only within 32 consecutive bits leave different registers. */
  lemma BurstMovesRegister(x: seq<Byte>, y: seq<Byte>, at: nat)
    requires |x| == |y| && x != y && DifferWithin(x, y, at)
    ensures Register(0xffff_ffff, Words(x)) != Register(0xffff_ffff, Words(y))
  {
    var from, s := at / 8, at % 8;
    forall i | 0 <= i < |x| && !(from <= i <= from + 4) ensures x[i] == y[i] { AllBitsSame(x[i], y[i]); }
    WordsFaithful(x, y);
    WordsSmall(x);
    WordsSmall(y);
    if from + 4 < |x| {
      LowBitsSame(Word(x[from]), Word(y[from]), s);
      HighBitsSame(Word(x[from + 4]), Word(y[from + 4]), s);
      StraddleDetected(Words(x), Words(y), from, s);
    } else {
      WindowDetected(Words(x), Words(y), if from <= |x| then from else |x|, |x|);
    }
  }

  lemma StraddleDetected(x: seq<bv32>, y: seq<bv32>, from: nat, s: nat)
    requires |x| == |y| && x != y && Small(x) && Small(y) && s < 8 && from + 5 <= |x|
    requires x[..from] == y[..from] && x[from + 5..] == y[from + 5..]
    requires Agree(x[from], y[from], LowMask(s)) && x[from + 4] ^ y[from + 4] <= LowMask(s)
    ensures Register(0xffff_ffff, x) != Register(0xffff_ffff, y)
  {
    var wx, wy := x[from..from + 5], y[from..from + 5];
    if wx == wy { InThree(x, from, from + 5); InThree(y, from, from + 5); }
    StraddleTold(Register(0xffff_ffff, x[..from]), wx, wy, s);
    WindowApart(x, y, from, from + 5);
  }

  /**
   Two inputs of equal length that differ, and differ only within 32 consecutive bits, have
   different checksums, whatever their length.
   */
  lemma BurstDetected(x: seq<Byte>, y: seq<Byte>, at: nat)
    requires |x| == |y| && x != y && DifferWithin(x, y, at)
    ensures Checksum(x) != Checksum(y)
  {
    BurstMovesRegister(x, y, at);
    if Checksum(x) == Checksum(y) {
      NotInjective(Register(0xffff_ffff, Words(x)), Register(0xffff_ffff, Words(y)));
    }
  }

  /* ------------------------------------------------------------- known answer */

  lemma FirstDigits()
    ensures Update(0xffff_ffff, 0x31) == 0x6f0a_661c && Update(0x6f0a_661c, 0x32) == 0x8caa_3b9f
    ensures Update(0x8caa_3b9f, 0x33) == 0xef84_d04d
  {
  }

  lemma MiddleDigits()
    ensures Update(0xef84_d04d, 0x34) == 0x09c5_0b11 && Update(0x09c5_0b11, 0x35) == 0xe72e_dcca
    ensures Update(0xe72e_dcca, 0x36) == 0xbeca_8e79
  {
  }

  lemma LastDigits()
    ensures Update(0xbeca_8e79, 0x37) == 0xedbd_6815 && Update(0xedbd_6815, 0x38) == 0x9f78_7f65
    ensures Update(0x9f78_7f65, 0x39) == 0x1cf9_6d7c
  {
  }

  /** The published check value: the checksum of the digits 1 to 9 in ASCII is 0xe3069283. */
  lemma CheckValue(digits: seq<Byte>)
    requires digits == [0x31, 0x32, 0x33, 0x34, 0x35, 0x36, 0x37, 0x38, 0x39]
    ensures Checksum(digits) == 0xe306_9283
  {
    var words := Words(digits);
    KnownWords();
    assert words[0..] == words;
    FirstDigits();
    ThreeWords(words, 0, 0xffff_ffff, 0x6f0a_661c, 0x8caa_3b9f, 0xef84_d04d);
    MiddleDigits();
    ThreeWords(words, 3, 0xef84_d04d, 0x09c5_0b11, 0xe72e_dcca, 0xbeca_8e79);
    LastDigits();
    ThreeWords(words, 6, 0xbeca_8e79, 0xedbd_6815, 0x9f78_7f65, 0x1cf9_6d7c);
  }

  lemma ThreeWords(words: seq<bv32>, i: nat, a: bv32, b: bv32, c: bv32, d: bv32)
    requires i + 3 <= |words|
    requires Update(a, words[i]) == b && Update(b, words[i + 1]) == c && Update(c, words[i + 2]) == d
    ensures Register(a, words[i..]) == Register(d, words[i + 3..])
  {
    OneWord(a, words, i, b);
    OneWord(b, words, i + 1, c);
    OneWord(c, words, i + 2, d);
  }

  lemma OneWord(crc: bv32, words: seq<bv32>, i: nat, next: bv32)
    requires i < |words| && Update(crc, words[i]) == next
    ensures Register(crc, words[i..]) == Register(next, words[i + 1..])
  {
    assert words[i..][1..] == words[i + 1..];
  }

  lemma KnownWords()
    ensures Word(0x31) == 0x31 && Word(0x32) == 0x32 && Word(0x33) == 0x33
    ensures Word(0x34) == 0x34 && Word(0x35) == 0x35 && Word(0x36) == 0x36
    ensures Word(0x37) == 0x37 && Word(0x38) == 0x38 && Word(0x39) == 0x39
  {
  }
}
