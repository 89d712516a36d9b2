/**
 The generator's size bound is not only enough but needed: in every schema whose bounds are positive
 and whose nested messages have fields there is a value whose encoding is exactly that long.
 */
module WireSizes {
  import opened Bytes
  import opened LittleEndian
  import opened Varint
  import opened Scalars
  import opened Messages
  import Utf8

  /** Bounds are positive, as the generator asks, and nested messages are not empty. */
  ghost predicate Proper(fields: seq<Field>)
    decreases fields, 1
  {
    forall i :: 0 <= i < |fields| ==> FieldProper(fields[i])
  }

  ghost predicate FieldProper(f: Field)
    decreases f
  {
    && (f.rule.Repeated? ==> f.rule.maxCount >= 1)
    && match f.kind
       case Word(_) => true
       case Text(maxSize) => maxSize >= 1
       case Blob(maxSize) => maxSize >= 1
       case Nested(fields) => fields != [] && Proper(fields)
  }

  /* ------------------------------------------------------------- the longest value */

  /** A value of the type that takes most bytes. */
  function Longest(s: Scalar): (n: int)
    ensures InRange(s, n) && n != 0
  {
    match s
    case Int32 | Int64 | Enumeration | SFixed32 | SFixed64 => -1
    case UInt32 | Fixed32 | Float => U32_MAX
    case UInt64 | Fixed64 | Double => U64_MAX
    case SInt32 => -0x8000_0000
    case SInt64 => -0x8000_0000_0000_0000
    case Boolean => 1
  }

  function Letters(n: nat): (bytes: seq<Byte>)
    ensures |bytes| == n && forall i :: 0 <= i < n ==> bytes[i] == 0x61
  {
    seq(n, _ => 0x61)
  }

  function Copies(v: Value, n: nat): (items: seq<Value>)
    ensures |items| == n && forall i :: 0 <= i < n ==> items[i] == v
  {
    seq(n, _ => v)
  }

  function LongestItem(kind: Kind): Value
    decreases kind
  {
    match kind
    case Word(s) => Num(Longest(s))
    case Text(maxSize) => Data(Letters(maxSize))
    case Blob(maxSize) => Data(Letters(maxSize))
    case Nested(fields) => Record(LongestSlots(fields))
  }

  function LongestSlot(f: Field): seq<Value>
    decreases f
  {
    Copies(LongestItem(f.kind), if f.rule.Repeated? then f.rule.maxCount else 1)
  }

  function LongestSlots(fields: seq<Field>): (slots: seq<seq<Value>>)
    ensures |slots| == |fields|
    decreases fields, 1
  {
    seq(|fields|, i requires 0 <= i < |fields| => LongestSlot(fields[i]))
  }

  /* ---------------------------------------------------------------- it is a value */

  lemma {:induction false} LettersValid(n: nat)
    ensures Utf8.Valid(Letters(n))
  {
    if n > 0 {
      LettersValid(n - 1);
      assert Letters(n)[1..] == Letters(n - 1);
    }
  }

  lemma {:induction false} ItemIsValue(kind: Kind)
    requires kind.Nested? ==> Proper(kind.fields)
    ensures ItemTyped(kind, LongestItem(kind)) && ItemInBounds(kind, LongestItem(kind))
    decreases kind
  {
    match kind
    case Word(_) =>
    case Text(maxSize) => LettersValid(maxSize);
    case Blob(_) =>
    case Nested(fields) => SlotsAreValue(fields);
  }

  lemma {:induction false} SlotIsValue(f: Field)
    requires FieldProper(f)
    ensures SlotTyped(f, LongestSlot(f)) && SlotInBounds(f, LongestSlot(f))
    decreases f
  {
    ItemIsValue(f.kind);
  }

  lemma {:induction false} SlotsAreValue(fields: seq<Field>)
    requires Proper(fields)
    ensures Typed(fields, LongestSlots(fields)) && InBounds(fields, LongestSlots(fields))
    decreases fields, 1
  {
    forall i | 0 <= i < |fields|
      ensures SlotTyped(fields[i], LongestSlots(fields)[i]) && SlotInBounds(fields[i], LongestSlots(fields)[i])
    {
      SlotIsValue(fields[i]);
    }
  }

  /* --------------------------------------------------------------- and it is long */

  lemma TopVarints()
    ensures |VarintBytes(U64_MAX)| == 10 && |VarintBytes(U32_MAX)| == 5
  {
    assert |VarintBytes(U32_MAX)| == 5 by {
      assert |VarintBytes(U32_MAX / 128)| == 1 + |VarintBytes(U32_MAX / 128 / 128)|;
      assert |VarintBytes(U32_MAX / 128 / 128)| == 1 + |VarintBytes(U32_MAX / 128 / 128 / 128)|;
      assert |VarintBytes(U32_MAX / 128 / 128 / 128)| == 2;
    }
    Shifts(U64_MAX, 5, 0x1fff_ffff);
    assert |VarintBytes(0x1fff_ffff)| == 5 by {
      assert |VarintBytes(0x1fff_ffff / 128)| == 1 + |VarintBytes(0x1fff_ffff / 128 / 128)|;
      assert |VarintBytes(0x1fff_ffff / 128 / 128)| == 1 + |VarintBytes(0x1fff_ffff / 128 / 128 / 128)|;
      assert |VarintBytes(0x1fff_ffff / 128 / 128 / 128)| == 2;
    }
  }

  lemma Shifts(value: nat, n: nat, rest: nat)
    requires n == 5 && value == U64_MAX && rest == 0x1fff_ffff
    ensures |VarintBytes(value)| == n + |VarintBytes(rest)|
  {
    var a := value / 128;
    var b := a / 128;
    var c := b / 128;
    var d := c / 128;
    assert d / 128 == rest;
    assert |VarintBytes(value)| == 1 + |VarintBytes(a)|;
    assert |VarintBytes(a)| == 1 + |VarintBytes(b)|;
    assert |VarintBytes(b)| == 1 + |VarintBytes(c)|;
    assert |VarintBytes(c)| == 1 + |VarintBytes(d)|;
    assert |VarintBytes(d)| == 1 + |VarintBytes(rest)|;
  }

  lemma WordIsLong(s: Scalar)
    ensures |ScalarBytes(s, Longest(s))| == MaxSize(s)
  {
    TopVarints();
    match s
    case SInt32 => ZigZagOrder(Longest(s), TWO_32);
    case SInt64 => ZigZagOrder(Longest(s), TWO_64);
    case _ =>
  }

  lemma {:induction false} WordsAreLong(s: Scalar, n: nat)
    ensures forall j :: 0 <= j < n ==> WordTyped(s, Copies(Num(Longest(s)), n)[j])
    ensures |PackedBytes(s, Copies(Num(Longest(s)), n))| == n * MaxSize(s)
  {
    var items := Copies(Num(Longest(s)), n);
    if n > 0 {
      WordIsLong(s);
      WordsAreLong(s, n - 1);
      assert items[1..] == Copies(Num(Longest(s)), n - 1);
      assert |PackedBytes(s, items)| == MaxSize(s) + (n - 1) * MaxSize(s);
    }
  }

  lemma {:induction false} ItemIsLong(kind: Kind)
    requires kind.Nested? ==> kind.fields != [] && Proper(kind.fields)
    ensures ItemTyped(kind, LongestItem(kind)) && |ItemBytes(kind, LongestItem(kind))| == ItemMax(kind)
    decreases kind
  {
    ItemIsValue(kind);
    match kind
    case Word(s) => WordIsLong(s);
    case Text(_) =>
    case Blob(_) =>
    case Nested(fields) => SizeExactly(fields);
  }

  lemma {:induction false} ItemsAreLong(f: Field, n: nat)
    requires FieldProper(f)
    ensures forall j :: 0 <= j < n ==> ItemTyped(f.kind, Copies(LongestItem(f.kind), n)[j])
    ensures |WireItems(f, Copies(LongestItem(f.kind), n))| == n * (|TagBytes(f.number, KindWire(f.kind))| + ItemMax(f.kind))
    decreases f, 1, n
  {
    ItemIsValue(f.kind);
    if n > 0 {
      ItemIsLong(f.kind);
      ItemsAreLong(f, n - 1);
      OneItemMore(f, LongestItem(f.kind), n, ItemMax(f.kind));
    }
  }

  lemma OneItemMore(f: Field, v: Value, n: nat, max: nat)
    requires n > 0 && ItemTyped(f.kind, v) && |ItemBytes(f.kind, v)| == max
    requires |WireItems(f, Copies(v, n - 1))| == (n - 1) * (|TagBytes(f.number, KindWire(f.kind))| + max)
    ensures |WireItems(f, Copies(v, n))| == n * (|TagBytes(f.number, KindWire(f.kind))| + max)
  {
    assert Copies(v, n)[1..] == Copies(v, n - 1);
    var size := |TagBytes(f.number, KindWire(f.kind))| + max;
    assert |WireItems(f, Copies(v, n))| == size + (n - 1) * size;
  }

  lemma NotOmitted(f: Field)
    requires FieldProper(f)
    ensures !Omitted(f, LongestSlot(f)) && LongestSlot(f) != []
  {
    assert LongestSlot(f)[0] == LongestItem(f.kind);
  }

  lemma {:induction false} FieldIsLong(f: Field)
    requires FieldProper(f)
    ensures SlotTyped(f, LongestSlot(f)) && |WireField(f, LongestSlot(f))| == FieldMax(f)
    decreases f, 2, 0
  {
    var n := if f.rule.Repeated? then f.rule.maxCount else 1;
    SlotIsValue(f);
    NotOmitted(f);
    if IsPacked(f) {
      WordsAreLong(f.kind.scalar, n);
      TagSizeIgnoresWire(f.number, 2);
      TagSizeIgnoresWire(f.number, KindWire(f.kind));
    } else {
      ItemsAreLong(f, n);
    }
  }

  lemma {:induction false} SumIsLong(fields: seq<Field>, k: nat)
    requires Proper(fields) && k <= |fields| && Typed(fields, LongestSlots(fields))
    ensures Typed(fields[k..], LongestSlots(fields)[k..])
    ensures |Wire(fields[k..], LongestSlots(fields)[k..])| == SumMax(fields[k..])
    decreases fields, 3, |fields| - k
  {
    if k < |fields| {
      assert FieldProper(fields[k]);
      FieldIsLong(fields[k]);
      SumIsLong(fields, k + 1);
      WireFrom(fields, LongestSlots(fields), k);
      assert fields[k..][1..] == fields[k + 1..];
    } else {
      assert fields[k..] == [];
    }
  }

  lemma {:induction false} SomeSize(fields: seq<Field>)
    requires fields != [] && Proper(fields)
    ensures SumMax(fields) >= 1
  {
    assert FieldProper(fields[0]);
  }

  /** The bound is reached. */
  lemma {:induction false} SizeExactly(fields: seq<Field>)
    requires fields != [] && Proper(fields)
    ensures Typed(fields, LongestSlots(fields)) && InBounds(fields, LongestSlots(fields))
    ensures |Wire(fields, LongestSlots(fields))| == MaxWireSize(fields)
    decreases fields, 4
  {
    SlotsAreValue(fields);
    SumIsLong(fields, 0);
    assert fields[0..] == fields && LongestSlots(fields)[0..] == LongestSlots(fields);
    SomeSize(fields);
  }
}
