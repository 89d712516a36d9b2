/** The emitted Writer and the emitted Encode functions, over a caller's buffer. */
module WireWriter {
  import opened Bytes
  import opened LittleEndian
  import opened Varint
  import opened Scalars
  import opened Messages
  import Utf8
  import WireFormat

  class Writer {
    const output: array<Byte>
    var position: nat

    constructor (output: array<Byte>)
      ensures this.output == output && Valid() && Written() == []
    {
      this.output := output;
      position := 0;
    }

    ghost predicate Valid()
      reads this
    {
      position <= output.Length
    }

    ghost function Written(): seq<Byte>
      requires Valid()
      reads this, output
    {
      output[..position]
    }

    /** What every write promises: it succeeds exactly if the bytes fit, and then appends them. */
    ghost predicate Appended(ok: bool, before: seq<Byte>, bytes: seq<Byte>)
      reads this, output
    {
      && Valid()
      && (ok <==> |before| + |bytes| <= output.Length)
      && (ok ==> Written() == before + bytes)
    }

    method Put(byte: Byte) returns (ok: bool)
      requires Valid()
      modifies this, output
      ensures Appended(ok, old(Written()), [byte])
    {
      if position == output.Length { return false; }
      output[position] := byte;
      position := position + 1;
      return true;
    }

    /** One round of the varint loop: the low seven bits, with a mark if more follow. */
    method VarintByte(value: nat) returns (ok: bool, rest: nat)
      requires Valid()
      modifies this, output
      ensures rest == value / 128
      ensures Appended(ok, old(Written()), VarintBytes(value)[..1])
      ensures VarintBytes(value) == VarintBytes(value)[..1] + VarintTail(rest)
    {
      VarintHead(value);
      var byte := value % 128;
      rest := value / 128;
      if rest != 0 { byte := byte + 128; }
      ok := Put(byte);
      assert VarintBytes(value)[..1] == [byte];
    }

    method Varint(value: nat) returns (ok: bool)
      requires Valid()
      modifies this, output
      ensures Appended(ok, old(Written()), VarintBytes(value))
    {
      ghost var whole := Written() + VarintBytes(value);
      var left;
      ok, left := VarintByte(value);
      while ok && left != 0
        invariant Valid() && (ok ==> Written() + VarintTail(left) == whole)
        invariant !ok ==> |whole| > output.Length
      {
        ghost var sofar, now := Written(), left;
        ok, left := VarintByte(left);
        Grouped(sofar, VarintBytes(now)[..1], VarintTail(left));
      }
    }

    /** Fixed32 and Fixed64: the bytes of a word, lowest first. */
    method Fixed(value: nat, width: nat) returns (ok: bool)
      requires Valid()
      modifies this, output
      ensures Appended(ok, old(Written()), ToLe(value, width))
    {
      var left := value;
      ghost var whole := Written() + ToLe(value, width);
      for index := 0 to width
        invariant Valid() && Written() + ToLe(left, width - index) == whole
      {
        ghost var sofar := Written();
        ok := Put(left % 256);
        if !ok { return; }
        Grouped(sofar, [left % 256], ToLe(left / 256, width - index - 1));
        left := left / 256;
      }
      ok := true;
    }

    method Tag(number: nat, wire: nat) returns (ok: bool)
      requires Valid()
      modifies this, output
      ensures Appended(ok, old(Written()), TagBytes(number, wire))
    {
      ok := Varint(8 * number + wire);
    }

    method Raw(value: seq<Byte>) returns (ok: bool)
      requires Valid()
      modifies this, output
      ensures Appended(ok, old(Written()), value)
    {
      if |value| > output.Length - position { return false; }
      ghost var before := Written();
      for index := 0 to |value|
        invariant Valid() && Written() == before + value[..index] && position == |before| + index
      {
        output[position] := value[index];
        position := position + 1;
      }
      return true;
    }

    method LengthDelimited(number: nat, value: seq<Byte>) returns (ok: bool)
      requires Valid()
      modifies this, output
      ensures Appended(ok, old(Written()), TagBytes(number, 2) + Delimited(value))
    {
      ghost var before := Written();
      ok := Tag(number, 2);
      if ok { ok := Varint(|value|); }
      if ok { ok := Raw(value); }
      Grouped(before, TagBytes(number, 2), VarintBytes(|value|));
      Grouped(before, TagBytes(number, 2) + VarintBytes(|value|), value);
      Grouped(TagBytes(number, 2), VarintBytes(|value|), value);
    }

    method Word(wire: nat, raw: nat) returns (ok: bool)
      requires Valid()
      modifies this, output
      ensures Appended(ok, old(Written()), WordBytes(wire, raw))
    {
      if wire == 0 { ok := Varint(raw); }
      else if wire == 5 { ok := Fixed(raw, 4); }
      else { ok := Fixed(raw, 8); }
    }

    method TaggedWord(number: nat, wire: nat, raw: nat) returns (ok: bool)
      requires Valid()
      modifies this, output
      ensures Appended(ok, old(Written()), TagBytes(number, wire) + WordBytes(wire, raw))
    {
      ghost var before := Written();
      ok := Tag(number, wire);
      if ok { ok := Word(wire, raw); }
      Grouped(before, TagBytes(number, wire), WordBytes(wire, raw));
    }
  }

  lemma Grouped(before: seq<Byte>, a: seq<Byte>, b: seq<Byte>)
    ensures before + a + b == before + (a + b)
  {
  }

  /**
   What encoding a part promises: Ok exactly if the part is within its bounds and its bytes
   fit, and then exactly those bytes are appended; never an internal error.
   */
  ghost predicate Encoded(w: Writer, status: Status, before: seq<Byte>, good: bool, bytes: seq<Byte>)
    reads w, w.output
  {
    && w.Valid()
    && (status == Ok <==> good && |before| + |bytes| <= w.output.Length)
    && (status == Ok ==> w.Written() == before + bytes)
    && (status == Ok || status == CapacityExceeded || (status == InvalidArgument && !good))
  }

  method PackItems(s: Scalar, items: seq<Value>, w: Writer) returns (ok: bool)
    requires w.Valid() && forall j :: 0 <= j < |items| ==> WordTyped(s, items[j])
    modifies w, w.output
    ensures w.Appended(ok, old(w.Written()), PackedBytes(s, items))
  {
    ghost var whole := w.Written() + PackedBytes(s, items);
    assert items[0..] == items;
    for i := 0 to |items|
      invariant w.Valid() && w.Written() + PackedBytes(s, items[i..]) == whole
    {
      ok := PackItem(s, items, i, w);
      if !ok { return; }
    }
    ok := true;
  }

  method PackItem(s: Scalar, items: seq<Value>, i: nat, w: Writer) returns (ok: bool)
    requires w.Valid() && i < |items| && forall j :: 0 <= j < |items| ==> WordTyped(s, items[j])
    modifies w, w.output
    ensures w.Valid()
    ensures ok ==> w.Written() + PackedBytes(s, items[i + 1..]) == old(w.Written()) + PackedBytes(s, items[i..])
    ensures !ok ==> |old(w.Written())| + |PackedBytes(s, items[i..])| > w.output.Length
  {
    ghost var before := w.Written();
    assert WordTyped(s, items[i]) && items[i..][1..] == items[i + 1..];
    ok := w.Word(WireType(s), Scalars.Raw(s, items[i].n));
    Grouped(before, ScalarBytes(s, items[i].n), PackedBytes(s, items[i + 1..]));
  }

  method EncodePacked(f: Field, items: seq<Value>, w: Writer) returns (status: Status)
    requires w.Valid() && IsPacked(f) && SlotTyped(f, items) && items != [] && SlotInBounds(f, items)
    modifies w, w.output
    ensures Encoded(w, status, old(w.Written()), true, WireField(f, items))
  {
    WordsTyped(f, items);
    var s := f.kind.scalar;
    var buffer := new Byte[f.rule.maxCount * MaxSize(s)];
    var packed := new Writer(buffer);
    PackedFits(s, items);
    MoreItems(|items|, f.rule.maxCount, MaxSize(s));
    var ok := PackItems(s, items, packed);
    if !ok { return Internal; }
    ok := w.LengthDelimited(f.number, buffer[..packed.position]);
    return if ok then Ok else CapacityExceeded;
  }

  method EncodeItem(f: Field, v: Value, w: Writer) returns (status: Status)
    requires w.Valid() && ItemTyped(f.kind, v)
    modifies w, w.output
    ensures Encoded(w, status, old(w.Written()), ItemInBounds(f.kind, v),
                    TagBytes(f.number, KindWire(f.kind)) + ItemBytes(f.kind, v))
    decreases f, 0
  {
    var ok;
    match f.kind {
      case Word(s) =>
        ok := w.TaggedWord(f.number, WireType(s), Scalars.Raw(s, v.n));
      case Text(maxSize) =>
        if |v.bytes| > maxSize { return CapacityExceeded; }
        var valid := Utf8.ValidUtf8(v.bytes);
        if !valid { return InvalidArgument; }
        ok := w.LengthDelimited(f.number, v.bytes);
      case Blob(maxSize) =>
        if |v.bytes| > maxSize { return CapacityExceeded; }
        ok := w.LengthDelimited(f.number, v.bytes);
      case Nested(fields) =>
        var buffer := new Byte[MaxWireSize(fields)];
        var nested, size := Encode(fields, v.slots, buffer);
        BufferSuffices(fields, v.slots);
        if nested != Ok { return nested; }
        ok := w.LengthDelimited(f.number, buffer[..size]);
    }
    return if ok then Ok else CapacityExceeded;
  }

  lemma BufferSuffices(fields: seq<Field>, slots: seq<seq<Value>>)
    requires Typed(fields, slots)
    ensures InBounds(fields, slots) ==> |Wire(fields, slots)| <= MaxWireSize(fields)
  {
    if InBounds(fields, slots) { WireFits(fields, slots); }
  }

  ghost predicate ItemsInBounds(kind: Kind, items: seq<Value>) {
    forall j :: 0 <= j < |items| ==> ItemInBounds(kind, items[j])
  }

  /** One round of the loop over the items of a field. */
  method EncodeNext(f: Field, items: seq<Value>, i: nat, w: Writer) returns (status: Status)
    requires w.Valid() && i < |items| && forall j :: 0 <= j < |items| ==> ItemTyped(f.kind, items[j])
    modifies w, w.output
    ensures w.Valid()
    ensures status == Ok ==>
              && w.Written() + WireItems(f, items[i + 1..]) == old(w.Written()) + WireItems(f, items[i..])
              && ItemInBounds(f.kind, items[i])
    ensures status == Ok || status == CapacityExceeded || (status == InvalidArgument && !ItemInBounds(f.kind, items[i]))
    ensures status != Ok ==>
              !ItemInBounds(f.kind, items[i]) || |old(w.Written())| + |WireItems(f, items[i..])| > w.output.Length
    decreases f, 1
  {
    ghost var before := w.Written();
    assert items[i..][1..] == items[i + 1..];
    status := EncodeItem(f, items[i], w);
    Grouped(before, TagBytes(f.number, KindWire(f.kind)) + ItemBytes(f.kind, items[i]), WireItems(f, items[i + 1..]));
  }

  method EncodeItems(f: Field, items: seq<Value>, w: Writer) returns (status: Status)
    requires w.Valid() && forall j :: 0 <= j < |items| ==> ItemTyped(f.kind, items[j])
    modifies w, w.output
    ensures Encoded(w, status, old(w.Written()), ItemsInBounds(f.kind, items), WireItems(f, items))
    decreases f, 2
  {
    ghost var whole := w.Written() + WireItems(f, items);
    assert items[0..] == items;
    for i := 0 to |items|
      invariant w.Valid() && w.Written() + WireItems(f, items[i..]) == whole
      invariant forall j :: 0 <= j < i ==> ItemInBounds(f.kind, items[j])
    {
      status := EncodeNext(f, items, i, w);
      if status != Ok { return; }
    }
    status := Ok;
  }

  method EncodeField(f: Field, items: seq<Value>, w: Writer) returns (status: Status)
    requires w.Valid() && SlotTyped(f, items)
    modifies w, w.output
    ensures Encoded(w, status, old(w.Written()), SlotInBounds(f, items), WireField(f, items))
    decreases f, 3
  {
    if f.rule.Repeated? && |items| > f.rule.maxCount { return CapacityExceeded; }
    if items == [] || Omitted(f, items) {
      return Ok;
    }
    if IsPacked(f) {
      status := EncodePacked(f, items, w);
    } else {
      status := EncodeItems(f, items, w);
    }
  }

  /** The part of the emitted Encode that belongs to one field. */
  method EncodeSlot(fields: seq<Field>, slots: seq<seq<Value>>, i: nat, w: Writer) returns (status: Status)
    requires w.Valid() && Typed(fields, slots) && i < |fields|
    requires Typed(fields[i..], slots[i..])
    modifies w, w.output
    ensures w.Valid() && Typed(fields[i + 1..], slots[i + 1..])
    ensures status == Ok ==>
              && w.Written() + Wire(fields[i + 1..], slots[i + 1..]) == old(w.Written()) + Wire(fields[i..], slots[i..])
              && SlotInBounds(fields[i], slots[i])
    ensures status == Ok || status == CapacityExceeded || (status == InvalidArgument && !SlotInBounds(fields[i], slots[i]))
    ensures status != Ok ==>
              || !SlotInBounds(fields[i], slots[i])
              || |old(w.Written())| + |Wire(fields[i..], slots[i..])| > w.output.Length
    decreases fields, 3
  {
    ghost var before := w.Written();
    WireFrom(fields, slots, i);
    status := EncodeField(fields[i], slots[i], w);
    Grouped(before, WireField(fields[i], slots[i]), Wire(fields[i + 1..], slots[i + 1..]));
  }

  /**
   The emitted Encode of any message type: Ok exactly for a value within its bounds whose
   encoding fits the output; then the output holds that encoding. Never kInternal.
   */
  method Encode(fields: seq<Field>, slots: seq<seq<Value>>, output: array<Byte>)
    returns (status: Status, written: nat)
    requires Typed(fields, slots)
    modifies output
    ensures status == Ok <==> InBounds(fields, slots) && |Wire(fields, slots)| <= output.Length
    ensures status == Ok ==> written <= output.Length && output[..written] == Wire(fields, slots)
    ensures status == Ok ==> WireFormat.IsMessage(fields, slots, output[..written])
    ensures status == Ok || (status == CapacityExceeded && written == 0)
         || (status == InvalidArgument && written == 0 && !InBounds(fields, slots))
    decreases fields, 4
  {
    written := 0;
    var w := new Writer(output);
    assert fields[0..] == fields && slots[0..] == slots;
    for i := 0 to |fields|
      invariant w.Valid() && Typed(fields[i..], slots[i..])
      invariant w.Written() + Wire(fields[i..], slots[i..]) == Wire(fields, slots)
      invariant forall j :: 0 <= j < i ==> SlotInBounds(fields[j], slots[j])
      modifies w, output
    {
      status := EncodeSlot(fields, slots, i, w);
      if status != Ok { return; }
    }
    status, written := Ok, w.position;
    WireFormat.WireExactly(fields, slots, output[..written]);
  }
}
