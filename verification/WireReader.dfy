/** The emitted Reader, which moves a position over its input, and the emitted Decode functions. */
module WireReader {
  import opened Bytes
  import opened LittleEndian
  import opened Varint
  import opened Scalars
  import opened Messages
  import opened Decoding
  import Utf8

  class Reader {
    const input: seq<Byte>
    var position: nat

    constructor (input: seq<Byte>)
      ensures Valid() && this.input == input && Rest() == input
    {
      this.input := input;
      position := 0;
    }

    ghost predicate Valid()
      reads this
    {
      position <= |input|
    }

    ghost function Rest(): seq<Byte>
      requires Valid()
      reads this
    {
      input[position..]
    }

    /** What every read promises: it succeeds exactly if the elements are there, and moves past them. */
    ghost predicate Read<T>(ok: bool, value: T, t: Taken<T>)
      reads this
    {
      && Valid()
      && (ok <==> t.Taken?)
      && (ok ==> value == t.value && Rest() == t.rest)
    }

    /** The same of a read whose value is not wanted. */
    ghost predicate Passed<T>(ok: bool, t: Taken<T>)
      reads this
    {
      Valid() && (ok <==> t.Taken?) && (ok ==> Rest() == t.rest)
    }

    method Varint() returns (ok: bool, value: nat)
      requires Valid()
      modifies this
      ensures Read(ok, value, TakeVarint(old(Rest()), 0))
    {
      value := 0;
      var scale: nat := 1;
      ghost var start := Rest();
      for index := 0 to 10
        invariant Valid() && scale > 0
        invariant Combined(TakeVarint(Rest(), index), value, scale) == TakeVarint(start, 0)
      {
        if position == |input| { return false, value; }
        ghost var before := Rest();
        var byte := input[position];
        position := position + 1;
        assert before[0] == byte && before[1..] == Rest();
        if index == 9 && byte >= 2 { return false, value; }
        CombineStep(before, index, value, scale);
        var digit: nat := byte % 128;
        value := value + digit * scale;
        scale := scale * 128;
        if byte < 128 { return true, value; }
      }
      return false, value;
    }

    /** Fixed32 and Fixed64. */
    method Fixed(width: nat) returns (ok: bool, value: nat)
      requires Valid() && width > 0
      modifies this
      ensures Read(ok, value, TakeFixed(old(Rest()), width))
    {
      if |input| - position < width { return false, 0; }
      value := 0;
      var scale := 1;
      ghost var start := position;
      ghost var word := input[start..start + width];
      for index := 0 to width
        invariant position == start + index && scale > 0
        invariant value + scale * FromLe(word[index..]) == FromLe(word)
      {
        assert word[index..][0] == input[position] && word[index..][1..] == word[index + 1..];
        Shift(value, scale, input[position], FromLe(word[index + 1..]));
        value := value + input[position] * scale;
        scale := scale * 256;
        position := position + 1;
      }
      assert old(Rest())[..width] == word && old(Rest())[width..] == Rest();
      ok := true;
    }

    method Bytes() returns (ok: bool, value: seq<Byte>)
      requires Valid()
      modifies this
      ensures Read(ok, value, TakeBytes(old(Rest())))
    {
      var length;
      ok, length := Varint();
      if !ok || length > |input| - position { return false, []; }
      ghost var rest := Rest();
      value := input[position..position + length];
      position := position + length;
      assert rest[..length] == value && rest[length..] == Rest();
    }

    method Field() returns (ok: bool, tag: Tag)
      requires Valid()
      modifies this
      ensures Read(ok, tag, TakeTag(old(Rest())))
    {
      var word;
      ok, word := Varint();
      tag := Tag(word / 8, word % 8);
      if ok { ok := tag.number != 0 && tag.number <= MAX_FIELD_NUMBER && tag.wire <= 5; }
    }

    method SkipOne(wire: nat) returns (ok: bool)
      requires Valid()
      modifies this
      ensures Passed(ok, SkipValue(old(Rest()), wire))
    {
      if wire == 0 { var word; ok, word := Varint(); }
      else if wire == 1 { var word; ok, word := Fixed(8); }
      else if wire == 2 { var bytes; ok, bytes := Bytes(); }
      else if wire == 5 { var word; ok, word := Fixed(4); }
      else { ok := false; }
    }

    /** Groups are unwound with a stack of sixteen field numbers. */
    method Pass(number: nat, wire: nat) returns (ok: bool)
      requires Valid()
      modifies this
      ensures Passed(ok, Skip(old(Rest()), number, wire))
    {
      if wire != 3 {
        ok := SkipOne(wire);
        return;
      }
      var groups := [number];
      while groups != []
        invariant Valid() && |groups| <= MAX_GROUP_DEPTH
        invariant SkipGroups(Rest(), groups) == SkipGroups(old(Rest()), [number])
        decreases |input| - position, |groups|
      {
        ghost var before := Rest();
        var tag;
        ok, tag := Field();
        if !ok { return; }
        if tag.wire == 3 {
          if |groups| == MAX_GROUP_DEPTH { return false; }
          groups := groups + [tag.number];
        } else if tag.wire == 4 {
          if tag.number != groups[|groups| - 1] { return false; }
          groups := groups[..|groups| - 1];
        } else {
          ok := SkipOne(tag.wire);
          if !ok { return; }
        }
        assert |Rest()| < |before|;
      }
      ok := true;
    }

    method Word(s: Scalar) returns (ok: bool, n: int)
      requires Valid()
      modifies this
      ensures Read(ok, n, TakeScalar(s, old(Rest())))
    {
      var raw;
      WordFits(WireType(s), Rest());
      if WireType(s) == 0 { ok, raw := Varint(); }
      else if WireType(s) == 5 { ok, raw := Fixed(4); }
      else { ok, raw := Fixed(8); }
      n := if ok then FromRaw(s, raw) else 0;
    }
  }

  /** A varint whose low part has been read already. */
  function Combined(t: Taken<nat>, low: nat, scale: nat): Taken<nat> {
    match t
    case Short => Short
    case Taken(high, rest) => Taken(low + scale * high, rest)
  }

  lemma Shift(low: nat, scale: nat, digit: nat, high: nat)
    ensures low + scale * (digit + 256 * high) == low + digit * scale + (scale * 256) * high
  {
    calc {
      scale * (digit + 256 * high);
      scale * digit + scale * (256 * high);
    }
  }

  lemma CombineStep(input: seq<Byte>, index: nat, low: nat, scale: nat)
    requires input != [] && index <= 9 && (index == 9 ==> input[0] < 2)
    ensures Combined(TakeVarint(input, index), low, scale) ==
              if input[0] < 128 then Taken(low + input[0] % 128 * scale, input[1..])
              else Combined(TakeVarint(input[1..], index + 1), low + input[0] % 128 * scale, scale * 128)
  {
    if input[0] >= 128 {
      var t := TakeVarint(input[1..], index + 1);
      if t.Taken? {
        assert input[0] % 128 == input[0] - 128;
        Sevens(low, scale, input[0] - 128, t.value);
      }
    }
  }

  lemma Sevens(low: nat, scale: nat, digit: nat, high: nat)
    ensures low + scale * (digit + 128 * high) == low + digit * scale + (scale * 128) * high
  {
    calc {
      scale * (digit + 128 * high);
      scale * digit + scale * (128 * high);
    }
  }

  /* ---------------------------------------------------------- emitted Decode */

  method ReadPacked(s: Scalar, maxCount: nat, packed: seq<Byte>, items: seq<Value>)
    returns (r: Outcome<seq<Value>>)
    ensures r == DecodePacked(s, maxCount, packed, items)
  {
    var reader := new Reader(packed);
    var all := items;
    while reader.position != |packed|
      invariant reader.Valid() && reader.input == packed
      invariant DecodePacked(s, maxCount, reader.Rest(), all) == DecodePacked(s, maxCount, packed, items)
      decreases |packed| - reader.position
    {
      if |all| == maxCount { return Failed(CapacityExceeded); }
      ghost var before := reader.Rest();
      var ok, n := reader.Word(s);
      if !ok { return Failed(ProtocolError); }
      assert |reader.Rest()| < |before|;
      all := all + [Num(n)];
    }
    return Done(all);
  }

  /** One value of a field, at the reader's position. */
  method ReadItem(kind: Kind, reader: Reader) returns (status: Status, v: Value)
    requires reader.Valid()
    modifies reader
    ensures reader.Valid()
    ensures status == Ok ==> DecodeItem(kind, old(reader.Rest())) == Done(Item(v, reader.Rest()))
    ensures status != Ok ==> DecodeItem(kind, old(reader.Rest())) == Failed(status)
    decreases |reader.input| - reader.position, 0
  {
    v := Num(0);
    if kind.Word? {
      var ok, n := reader.Word(kind.scalar);
      return if ok then Ok else ProtocolError, Num(n);
    }
    var ok, bytes := reader.Bytes();
    if !ok { return ProtocolError, v; }
    match kind
    case Text(maxSize) =>
      var valid := Utf8.ValidUtf8(bytes);
      if !valid { return ProtocolError, v; }
      return if |bytes| > maxSize then CapacityExceeded else Ok, Data(bytes);
    case Blob(maxSize) =>
      return if |bytes| > maxSize then CapacityExceeded else Ok, Data(bytes);
    case Nested(fields) =>
      var r := ReadMessage(fields, bytes);
      if r.Failed? { DecodeFailures(fields, bytes); return r.status, v; }
      return Ok, Record(r.value);
  }

  /** The body of one case of the switch. */
  method ReadField(f: Field, wire: nat, reader: Reader, items: seq<Value>) returns (r: Outcome<seq<Value>>)
    requires reader.Valid()
    modifies reader
    ensures reader.Valid()
    ensures r.Done? ==> DecodeField(f, wire, old(reader.Rest()), items) == Done(Slot(r.value, reader.Rest()))
    ensures r.Failed? ==> DecodeField(f, wire, old(reader.Rest()), items) == Failed(r.status)
    decreases |reader.input| - reader.position, 1
  {
    if f.rule.Repeated? && f.kind.Word? && wire == 2 {
      var ok, packed := reader.Bytes();
      if !ok { return Failed(ProtocolError); }
      r := ReadPacked(f.kind.scalar, f.rule.maxCount, packed, items);
    } else if wire != KindWire(f.kind) {
      var ok := reader.Pass(f.number, wire);
      return if ok then Done(items) else Failed(ProtocolError);
    } else {
      if f.rule.Repeated? && |items| == f.rule.maxCount { return Failed(CapacityExceeded); }
      var status, v := ReadItem(f.kind, reader);
      if status != Ok { return Failed(status); }
      return Done(Accept(f, items, v));
    }
  }

  /** The emitted Decode of any message type computes Decoding.Decode. */
  method ReadMessage(fields: seq<Field>, input: seq<Byte>) returns (r: Outcome<seq<seq<Value>>>)
    ensures r == Decode(fields, input)
    decreases |input|, 2
  {
    var slots := Defaults(fields);
    var reader := new Reader(input);
    while reader.position != |input|
      invariant reader.Valid() && reader.input == input && |slots| == |fields|
      invariant DecodeFrom(fields, reader.Rest(), slots) == Decode(fields, input)
      decreases |input| - reader.position
    {
      ghost var before := reader.Rest();
      var ok, tag := reader.Field();
      if !ok { return Failed(ProtocolError); }
      assert |reader.Rest()| < |before|;
      match Find(fields, tag.number)
      case None =>
        ok := reader.Pass(tag.number, tag.wire);
        if !ok { return Failed(ProtocolError); }
        assert |reader.Rest()| < |before|;
      case Some(i) =>
        var slot := ReadField(fields[i], tag.wire, reader, slots[i]);
        if slot.Failed? { return Failed(slot.status); }
        assert |reader.Rest()| < |before|;
        slots := slots[i := slot.value];
    }
    return Done(slots);
  }
}
