/**
 The Protocol Buffers wire elements: base-128 varints, tags, fixed-width words and
 length-delimited bytes, written and read back. Reading functions take the unread input
 and give the value with what is left.
 */
module Varint {
  import opened Bytes
  import opened LittleEndian

  const MAX_FIELD_NUMBER := 0x1fff_ffff

  datatype Taken<+T> = Short | Taken(value: T, rest: seq<Byte>)

  /* ------------------------------------------------------------------ varint */

  function VarintBytes(value: nat): (bytes: seq<Byte>)
    ensures bytes != []
  {
    if value < 128 then [value] else [value % 128 + 128] + VarintBytes(value / 128)
  }

  /** What follows the first byte, given the value shifted right by seven bits. */
  function VarintTail(rest: nat): seq<Byte> {
    if rest != 0 then VarintBytes(rest) else []
  }

  lemma VarintHead(value: nat)
    ensures VarintBytes(value) == [value % 128 + if value / 128 != 0 then 128 else 0] + VarintTail(value / 128)
  {
  }

  /** The generator's count of the bytes a varint takes. */
  method VarintSize(value: nat) returns (size: nat)
    ensures size == |VarintBytes(value)|
  {
    size := 1;
    var left := value;
    while left >= 0x80
      invariant left >= 0 && size >= 1
      invariant |VarintBytes(value)| == size - 1 + |VarintBytes(left)|
    {
      left := left / 128;
      size := size + 1;
    }
  }

  /** At most ten bytes; the tenth carries only bit 63. */
  function TakeVarint(input: seq<Byte>, index: nat): (t: Taken<nat>)
    requires index <= 10
    ensures t.Taken? ==> |t.rest| < |input|
    decreases 10 - index
  {
    if index == 10 || input == [] then Short
    else if index == 9 && input[0] >= 2 then Short
    else if input[0] < 128 then Taken(input[0], input[1..])
    else
      match TakeVarint(input[1..], index + 1)
      case Short => Short
      case Taken(high, rest) => Taken(input[0] - 128 + 128 * high, rest)
  }

  /** What the bytes from `index` on can still carry of a 64-bit value. */
  function Room(index: nat): (limit: nat)
    requires index <= 9
    ensures limit >= 2
    decreases 9 - index
  {
    if index == 9 then 2 else 128 * Room(index + 1)
  }

  lemma RoomIs64Bits()
    ensures Room(0) == U64_MAX + 1
  {
    assert Room(7) == 128 * 128 * Room(9);
    assert Room(5) == 128 * 128 * Room(7);
    assert Room(3) == 128 * 128 * Room(5);
    assert Room(1) == 128 * 128 * Room(3);
  }

  lemma {:induction false} VarintReadsBackAt(value: nat, rest: seq<Byte>, index: nat)
    requires index <= 9 && value < Room(index)
    ensures TakeVarint(VarintBytes(value) + rest, index) == Taken(value, rest)
    decreases 9 - index
  {
    var input := VarintBytes(value) + rest;
    if value < 128 {
      assert input[1..] == rest;
    } else {
      assert input[1..] == VarintBytes(value / 128) + rest;
      VarintReadsBackAt(value / 128, rest, index + 1);
    }
  }

  /** Every 64-bit value reads back, whatever follows it. */
  lemma VarintReadsBack(value: nat, rest: seq<Byte>)
    requires value <= U64_MAX
    ensures TakeVarint(VarintBytes(value) + rest, 0) == Taken(value, rest)
  {
    RoomIs64Bits();
    VarintReadsBackAt(value, rest, 0);
  }

  lemma {:induction false} TakenBelowRoom(input: seq<Byte>, index: nat)
    requires index <= 9
    ensures TakeVarint(input, index).Taken? ==> TakeVarint(input, index).value < Room(index)
    decreases 9 - index
  {
    if index < 9 && input != [] && input[0] >= 128 { TakenBelowRoom(input[1..], index + 1); }
  }

  /** Nothing a reader accepts exceeds 64 bits. */
  lemma TakenIs64Bits(input: seq<Byte>)
    ensures TakeVarint(input, 0).Taken? ==> TakeVarint(input, 0).value <= U64_MAX
  {
    RoomIs64Bits();
    TakenBelowRoom(input, 0);
  }

  lemma {:induction false} VarintSizeGrows(small: nat, large: nat)
    requires small <= large
    ensures |VarintBytes(small)| <= |VarintBytes(large)|
    decreases large
  {
    if large >= 128 && small >= 128 { VarintSizeGrows(small / 128, large / 128); }
  }

  lemma {:induction false} VarintSizeBound(value: nat, index: nat)
    requires index <= 9 && value < Room(index)
    ensures |VarintBytes(value)| <= 10 - index
    decreases 9 - index
  {
    if value >= 128 { VarintSizeBound(value / 128, index + 1); }
  }

  /** 64-bit values take at most ten bytes, 32-bit values five, and values below 128 one. */
  lemma VarintWidths(value: nat)
    requires value <= U64_MAX
    ensures |VarintBytes(value)| <= 10
    ensures value <= U32_MAX ==> |VarintBytes(value)| <= 5
  {
    RoomIs64Bits();
    VarintSizeBound(value, 0);
    if value <= U32_MAX {
      VarintSizeGrows(value, U32_MAX);
      assert |VarintBytes(U32_MAX / 128)| == 1 + |VarintBytes(U32_MAX / 128 / 128)|;
      assert |VarintBytes(U32_MAX / 128 / 128)| == 1 + |VarintBytes(U32_MAX / 128 / 128 / 128)|;
      assert |VarintBytes(U32_MAX / 128 / 128 / 128)| == 2;
    }
  }

  /* --------------------------------------------------------------- fixed words */

  function TakeFixed(input: seq<Byte>, width: nat): (t: Taken<nat>)
    requires width > 0
    ensures t.Taken? ==> |t.rest| < |input|
  {
    if |input| < width then Short else Taken(FromLe(input[..width]), input[width..])
  }

  lemma FixedReadsBack(value: nat, width: nat, rest: seq<Byte>)
    requires width > 0 && value < Power256(width)
    ensures TakeFixed(ToLe(value, width) + rest, width) == Taken(value, rest)
  {
    var input := ToLe(value, width) + rest;
    assert input[..width] == ToLe(value, width) && input[width..] == rest;
    LeRoundTrip(value, width);
  }

  /* ------------------------------------------------------------------- tags */

  datatype Tag = Tag(number: nat, wire: nat)

  function TagBytes(number: nat, wire: nat): seq<Byte> {
    VarintBytes(8 * number + wire)
  }

  function TakeTag(input: seq<Byte>): (t: Taken<Tag>)
    ensures t.Taken? ==> |t.rest| < |input| && 1 <= t.value.number <= MAX_FIELD_NUMBER && t.value.wire <= 5
  {
    match TakeVarint(input, 0)
    case Short => Short
    case Taken(tag, rest) =>
      var number, wire := tag / 8, tag % 8;
      if number == 0 || number > MAX_FIELD_NUMBER || wire > 5 then Short
      else Taken(Tag(number, wire), rest)
  }

  lemma TagReadsBack(number: nat, wire: nat, rest: seq<Byte>)
    requires 1 <= number <= MAX_FIELD_NUMBER && wire <= 5
    ensures TakeTag(TagBytes(number, wire) + rest) == Taken(Tag(number, wire), rest)
  {
    VarintReadsBack(8 * number + wire, rest);
  }

  lemma {:induction false} TagSizeIgnoresWire(number: nat, wire: nat)
    requires wire <= 7
    ensures |TagBytes(number, wire)| == |TagBytes(number, 0)|
  {
    SameSize(8 * number, 8 * number + wire);
  }

  lemma SameSize(low: nat, high: nat)
    requires low / 8 == high / 8
    ensures |VarintBytes(low)| == |VarintBytes(high)|
  {
    assert low / 128 == low / 8 / 16 && high / 128 == high / 8 / 16;
  }

  /* ---------------------------------------------------------- length-delimited */

  function Delimited(payload: seq<Byte>): seq<Byte> {
    VarintBytes(|payload|) + payload
  }

  function TakeBytes(input: seq<Byte>): (t: Taken<seq<Byte>>)
    ensures t.Taken? ==> |t.rest| < |input| && |t.value| < |input|
  {
    match TakeVarint(input, 0)
    case Short => Short
    case Taken(length, rest) =>
      if length > |rest| then Short else Taken(rest[..length], rest[length..])
  }

  lemma BytesReadBack(payload: seq<Byte>, rest: seq<Byte>)
    requires |payload| <= U64_MAX
    ensures TakeBytes(Delimited(payload) + rest) == Taken(payload, rest)
  {
    VarintReadsBack(|payload|, payload + rest);
    assert Delimited(payload) + rest == VarintBytes(|payload|) + (payload + rest);
    assert (payload + rest)[..|payload|] == payload && (payload + rest)[|payload|..] == rest;
  }

  /* ------------------------------------------------------------------ skipping */

  function SkipValue(input: seq<Byte>, wire: nat): (t: Taken<()>)
    ensures t.Taken? ==> |t.rest| < |input|
  {
    match wire
    case 0 => Forget(TakeVarint(input, 0))
    case 1 => Forget(TakeFixed(input, 8))
    case 2 => Forget(TakeBytes(input))
    case 5 => Forget(TakeFixed(input, 4))
    case _ => Short
  }

  function Forget<T>(t: Taken<T>): (u: Taken<()>)
    ensures t.Taken? <==> u.Taken?
    ensures t.Taken? ==> u.rest == t.rest
  {
    match t
    case Short => Short
    case Taken(_, rest) => Taken((), rest)
  }

  const MAX_GROUP_DEPTH := 16

  /** Reads up to the end of the groups open in `groups`, innermost last. */
  function SkipGroups(input: seq<Byte>, groups: seq<nat>): (t: Taken<()>)
    ensures t.Taken? ==> |t.rest| <= |input|
    decreases |input|
  {
    if groups == [] then Taken((), input)
    else
      match TakeTag(input)
      case Short => Short
      case Taken(tag, rest) =>
        if tag.wire == 3 then
          if |groups| == MAX_GROUP_DEPTH then Short else SkipGroups(rest, groups + [tag.number])
        else if tag.wire == 4 then
          if tag.number != groups[|groups| - 1] then Short else SkipGroups(rest, groups[..|groups| - 1])
        else
          match SkipValue(rest, tag.wire)
          case Short => Short
          case Taken(_, after) => SkipGroups(after, groups)
  }

  function Skip(input: seq<Byte>, number: nat, wire: nat): (t: Taken<()>)
    ensures t.Taken? ==> |t.rest| <= |input|
  {
    if wire != 3 then SkipValue(input, wire) else SkipGroups(input, [number])
  }
}
