/**
 The emitted Decode functions: what they make of any bytes, that they undo the encoding, that
 whatever they accept is within the schema's bounds, and that they pass over unknown fields.
 */
module Decoding {
  import opened Bytes
  import opened Varint
  import opened Scalars
  import opened Messages
  import Utf8

  datatype Outcome<+T> = Done(value: T) | Failed(status: Status)

  datatype Item = Item(value: Value, rest: seq<Byte>)

  datatype Slot = Slot(items: seq<Value>, rest: seq<Byte>)

  /* ------------------------------------------------------------ the functions */

  /** The case a field number selects. */
  function Find(fields: seq<Field>, number: nat): (found: Option<nat>)
    ensures found.Some? ==> found.value < |fields| && fields[found.value].number == number
    ensures found.None? ==> forall i :: 0 <= i < |fields| ==> fields[i].number != number
  {
    if fields == [] then None
    else if fields[|fields| - 1].number == number then Some(|fields| - 1)
    else Find(fields[..|fields| - 1], number)
  }

  function Decode(fields: seq<Field>, input: seq<Byte>): (r: Outcome<seq<seq<Value>>>)
    ensures r.Done? ==> |r.value| == |fields|
    decreases |input|, 2
  {
    DecodeFrom(fields, input, Defaults(fields))
  }

  function DecodeFrom(fields: seq<Field>, input: seq<Byte>, slots: seq<seq<Value>>)
    : (r: Outcome<seq<seq<Value>>>)
    requires |slots| == |fields|
    ensures r.Done? ==> |r.value| == |fields|
    decreases |input|, 1
  {
    if input == [] then Done(slots)
    else
      match TakeTag(input)
      case Short => Failed(ProtocolError)
      case Taken(tag, rest) =>
        match Find(fields, tag.number)
        case None =>
          (match Skip(rest, tag.number, tag.wire)
           case Short => Failed(ProtocolError)
           case Taken(_, after) => DecodeFrom(fields, after, slots))
        case Some(i) =>
          match DecodeField(fields[i], tag.wire, rest, slots[i])
          case Failed(status) => Failed(status)
          case Done(slot) => DecodeFrom(fields, slot.rest, slots[i := slot.items])
  }

  function DecodeField(f: Field, wire: nat, input: seq<Byte>, items: seq<Value>): (r: Outcome<Slot>)
    ensures r.Done? ==> |r.value.rest| <= |input|
    decreases |input|, 1
  {
    if f.rule.Repeated? && f.kind.Word? && wire == 2 then
      match TakeBytes(input)
      case Short => Failed(ProtocolError)
      case Taken(packed, rest) =>
        match DecodePacked(f.kind.scalar, f.rule.maxCount, packed, items)
        case Failed(status) => Failed(status)
        case Done(all) => Done(Slot(all, rest))
    else if wire != KindWire(f.kind) then
      match Skip(input, f.number, wire)
      case Short => Failed(ProtocolError)
      case Taken(_, rest) => Done(Slot(items, rest))
    else if f.rule.Repeated? && |items| == f.rule.maxCount then Failed(CapacityExceeded)
    else
      match DecodeItem(f.kind, input)
      case Failed(status) => Failed(status)
      case Done(item) => Done(Slot(Accept(f, items, item.value), item.rest))
  }

  /** A repeated field grows; any other field takes the latest value. */
  function Accept(f: Field, items: seq<Value>, v: Value): seq<Value> {
    if f.rule.Repeated? then items + [v] else [v]
  }

  function DecodePacked(s: Scalar, maxCount: nat, input: seq<Byte>, items: seq<Value>): Outcome<seq<Value>>
    decreases |input|
  {
    if input == [] then Done(items)
    else if |items| == maxCount then Failed(CapacityExceeded)
    else
      match TakeScalar(s, input)
      case Short => Failed(ProtocolError)
      case Taken(n, rest) => DecodePacked(s, maxCount, rest, items + [Num(n)])
  }

  function DecodeItem(kind: Kind, input: seq<Byte>): (r: Outcome<Item>)
    ensures r.Done? ==> |r.value.rest| < |input|
    decreases |input|, 0
  {
    match kind
    case Word(s) =>
      (match TakeScalar(s, input)
       case Short => Failed(ProtocolError)
       case Taken(n, rest) => Done(Item(Num(n), rest)))
    case Text(maxSize) =>
      (match TakeBytes(input)
       case Short => Failed(ProtocolError)
       case Taken(bytes, rest) =>
         if !Utf8.Valid(bytes) then Failed(ProtocolError)
         else if |bytes| > maxSize then Failed(CapacityExceeded)
         else Done(Item(Data(bytes), rest)))
    case Blob(maxSize) =>
      (match TakeBytes(input)
       case Short => Failed(ProtocolError)
       case Taken(bytes, rest) =>
         if |bytes| > maxSize then Failed(CapacityExceeded) else Done(Item(Data(bytes), rest)))
    case Nested(fields) =>
      match TakeBytes(input)
      case Short => Failed(ProtocolError)
      case Taken(bytes, rest) =>
        match Decode(fields, bytes)
        case Failed(status) => Failed(status)
        case Done(slots) => Done(Item(Record(slots), rest))
  }

  /** A failure is a malformed message or one that exceeds the bounds; it is never reported as Ok. */
  lemma {:induction false} DecodeFailures(fields: seq<Field>, input: seq<Byte>)
    ensures Decode(fields, input).Failed? ==>
              ProperFailure(Decode(fields, input).status)
    decreases |input|, 2
  {
    FailuresFrom(fields, input, Defaults(fields));
  }

  predicate ProperFailure(status: Status) {
    status == ProtocolError || status == CapacityExceeded
  }

  lemma {:induction false} PackedFailures(s: Scalar, maxCount: nat, input: seq<Byte>, items: seq<Value>)
    ensures DecodePacked(s, maxCount, input, items).Failed? ==>
              ProperFailure(DecodePacked(s, maxCount, input, items).status)
    decreases |input|
  {
    if input != [] && TakeScalar(s, input).Taken? {
      var t := TakeScalar(s, input);
      PackedFailures(s, maxCount, t.rest, items + [Num(t.value)]);
    }
  }

  lemma {:induction false} FieldFailures(f: Field, wire: nat, input: seq<Byte>, items: seq<Value>)
    ensures DecodeField(f, wire, input, items).Failed? ==>
              ProperFailure(DecodeField(f, wire, input, items).status)
    decreases |input|, 1
  {
    var t := TakeBytes(input);
    if t.Taken? {
      if f.kind.Word? && f.rule.Repeated? { PackedFailures(f.kind.scalar, f.rule.maxCount, t.value, items); }
      if f.kind.Nested? { DecodeFailures(f.kind.fields, t.value); }
    }
  }

  lemma {:induction false} FailuresFrom(fields: seq<Field>, input: seq<Byte>, slots: seq<seq<Value>>)
    requires |slots| == |fields|
    ensures DecodeFrom(fields, input, slots).Failed? ==> ProperFailure(DecodeFrom(fields, input, slots).status)
    decreases |input|, 1
  {
    if input != [] && TakeTag(input).Taken? {
      var tag, rest := TakeTag(input).value, TakeTag(input).rest;
      var found := Find(fields, tag.number);
      if found.None? {
        var skipped := Skip(rest, tag.number, tag.wire);
        if skipped.Taken? { FailuresFrom(fields, skipped.rest, slots); }
      } else {
        var i := found.value;
        FieldFailures(fields[i], tag.wire, rest, slots[i]);
        var next := DecodeField(fields[i], tag.wire, rest, slots[i]);
        if next.Done? { FailuresFrom(fields, next.value.rest, slots[i := next.value.items]); }
      }
    }
  }

  /* --------------------------------------------------------------- round trip */

  lemma FindExact(fields: seq<Field>, k: nat)
    requires WellFormed(fields) && k < |fields|
    ensures Find(fields, fields[k].number) == Some(k)
  {
    var found := Find(fields, fields[k].number);
    assert fields[k].number == fields[k].number;
  }

  lemma {:induction false} ItemReadsBack(f: Field, v: Value, tail: seq<Byte>)
    requires FieldWellFormed(f) && ItemTyped(f.kind, v) && ItemInBounds(f.kind, v)
    requires |ItemBytes(f.kind, v)| <= U64_MAX
    ensures DecodeItem(f.kind, ItemBytes(f.kind, v) + tail) == Done(Item(v, tail))
    decreases f
  {
    match f.kind
    case Word(s) => ScalarReadsBack(s, v.n, tail);
    case Text(_) => BytesReadBack(v.bytes, tail);
    case Blob(_) => BytesReadBack(v.bytes, tail);
    case Nested(fields) =>
      BytesReadBack(Wire(fields, v.slots), tail);
      RoundTrip(fields, v.slots);
  }

  /** One tagged item at the front of the input is taken into its field. */
  lemma {:induction false} OneItem(fields: seq<Field>, k: nat, v: Value, tail: seq<Byte>, slots: seq<seq<Value>>)
    requires WellFormed(fields) && k < |fields| && |slots| == |fields|
    requires ItemTyped(fields[k].kind, v) && ItemInBounds(fields[k].kind, v)
    requires |ItemBytes(fields[k].kind, v)| <= U64_MAX
    requires fields[k].rule.Repeated? ==> |slots[k]| < fields[k].rule.maxCount
    ensures DecodeFrom(fields, TagBytes(fields[k].number, KindWire(fields[k].kind)) +
                                 (ItemBytes(fields[k].kind, v) + tail), slots)
         == DecodeFrom(fields, tail, slots[k := Accept(fields[k], slots[k], v)])
    decreases fields, 0
  {
    var f := fields[k];
    TagReadsBack(f.number, KindWire(f.kind), ItemBytes(f.kind, v) + tail);
    FindExact(fields, k);
    assert FieldWellFormed(f);
    ItemReadsBack(f, v, tail);
  }

  lemma AppendAt(slots: seq<seq<Value>>, k: nat, first: seq<Value>, more: seq<Value>)
    requires k < |slots|
    ensures slots[k := slots[k] + []] == slots
    ensures slots[k := slots[k] + first][k := slots[k] + first + more] == slots[k := slots[k] + (first + more)]
  {
    assert slots[k] + [] == slots[k];
    assert slots[k] + first + more == slots[k] + (first + more);
  }

  lemma {:induction false} ItemsRun(fields: seq<Field>, k: nat, items: seq<Value>, tail: seq<Byte>, slots: seq<seq<Value>>)
    requires WellFormed(fields) && k < |fields| && |slots| == |fields|
    requires forall j :: 0 <= j < |items| ==> ItemTyped(fields[k].kind, items[j]) && ItemInBounds(fields[k].kind, items[j])
    requires |WireItems(fields[k], items)| <= U64_MAX
    requires fields[k].rule.Repeated? && |slots[k]| + |items| <= fields[k].rule.maxCount
    ensures DecodeFrom(fields, WireItems(fields[k], items) + tail, slots)
         == DecodeFrom(fields, tail, slots[k := slots[k] + items])
    decreases fields, 1, |items|
  {
    var f := fields[k];
    if items == [] {
      AppendAt(slots, k, [], []);
      assert WireItems(f, items) + tail == tail;
    } else {
      var more := WireItems(f, items[1..]);
      var next := slots[k := slots[k] + [items[0]]];
      Regroup(TagBytes(f.number, KindWire(f.kind)), ItemBytes(f.kind, items[0]), more, tail);
      OneItem(fields, k, items[0], more + tail, slots);
      ItemsRun(fields, k, items[1..], tail, next);
      AppendAt(slots, k, [items[0]], items[1..]);
      assert [items[0]] + items[1..] == items;
    }
  }

  lemma Regroup(a: seq<Byte>, b: seq<Byte>, c: seq<Byte>, tail: seq<Byte>)
    ensures (a + b + c) + tail == a + (b + (c + tail))
  {
  }

  lemma PackedStep(s: Scalar, maxCount: nat, n: int, tail: seq<Byte>, items: seq<Value>)
    requires InRange(s, n) && |items| < maxCount
    ensures DecodePacked(s, maxCount, ScalarBytes(s, n) + tail, items)
         == DecodePacked(s, maxCount, tail, items + [Num(n)])
  {
    ScalarReadsBack(s, n, tail);
  }

  lemma {:induction false} PackedRun(s: Scalar, maxCount: nat, rest: seq<Value>, items: seq<Value>)
    requires forall j :: 0 <= j < |rest| ==> WordTyped(s, rest[j])
    requires |items| + |rest| <= maxCount
    ensures DecodePacked(s, maxCount, PackedBytes(s, rest), items) == Done(items + rest)
    decreases rest
  {
    if rest == [] {
      assert items + rest == items;
    } else {
      assert WordTyped(s, rest[0]);
      var n, more := rest[0].n, rest[1..];
      assert items + [Num(n)] + more == items + rest;
      PackedRun(s, maxCount, more, items + [Num(n)]);
      PackedStep(s, maxCount, n, PackedBytes(s, more), items);
    }
  }

  lemma PackedFieldRun(fields: seq<Field>, k: nat, items: seq<Value>, tail: seq<Byte>, slots: seq<seq<Value>>)
    requires WellFormed(fields) && k < |fields| && |slots| == |fields|
    requires IsPacked(fields[k]) && items != [] && SlotTyped(fields[k], items) && SlotInBounds(fields[k], items)
    requires |WireField(fields[k], items)| <= U64_MAX
    requires slots[k] == []
    ensures DecodeFrom(fields, WireField(fields[k], items) + tail, slots) == DecodeFrom(fields, tail, slots[k := items])
  {
    var f := fields[k];
    WordsTyped(f, items);
    var packed := PackedBytes(f.kind.scalar, items);
    assert WireField(f, items) + tail == TagBytes(f.number, 2) + (Delimited(packed) + tail);
    TagReadsBack(f.number, 2, Delimited(packed) + tail);
    BytesReadBack(packed, tail);
    FindExact(fields, k);
    PackedRun(f.kind.scalar, f.rule.maxCount, items, []);
    assert [] + items == items;
  }

  /** The bytes of one field, read from its default, give the field back. */
  lemma {:induction false} FieldRun(fields: seq<Field>, k: nat, items: seq<Value>, tail: seq<Byte>, slots: seq<seq<Value>>)
    requires WellFormed(fields) && k < |fields| && |slots| == |fields|
    requires SlotTyped(fields[k], items) && SlotInBounds(fields[k], items)
    requires |WireField(fields[k], items)| <= U64_MAX
    requires slots[k] == DefaultSlot(fields[k])
    ensures DecodeFrom(fields, WireField(fields[k], items) + tail, slots) == DecodeFrom(fields, tail, slots[k := items])
    decreases fields, 2, 0
  {
    var f := fields[k];
    if Omitted(f, items) || items == [] {
      assert slots[k := items] == slots && WireField(f, items) + tail == tail;
    } else if IsPacked(f) {
      PackedFieldRun(fields, k, items, tail, slots);
    } else if f.rule.Repeated? {
      ItemsRun(fields, k, items, tail, slots);
      assert slots[k] + items == items;
    } else {
      assert items[1..] == [];
      Regroup(TagBytes(f.number, KindWire(f.kind)), ItemBytes(f.kind, items[0]), [], tail);
      assert [] + tail == tail;
      assert WireItems(f, items) == TagBytes(f.number, KindWire(f.kind)) + ItemBytes(f.kind, items[0]) + [];
      OneItem(fields, k, items[0], tail, slots);
      assert [items[0]] == items;
    }
  }

  ghost predicate Good(fields: seq<Field>, slots: seq<seq<Value>>) {
    Typed(fields, slots) && InBounds(fields, slots)
  }

  ghost predicate SlotGood(f: Field, items: seq<Value>) {
    SlotTyped(f, items) && SlotInBounds(f, items)
  }

  lemma Overwrite(front: seq<seq<Value>>, back: seq<seq<Value>>, x: seq<Value>)
    requires |front| < |back|
    ensures (front + [x]) + back[|front| + 1..] == (front + back[|front|..])[|front| := x]
    ensures (front + back[|front|..])[|front|] == back[|front|]
  {
  }

  lemma {:induction false} SuffixRun(fields: seq<Field>, slots: seq<seq<Value>>, k: nat)
    requires WellFormed(fields) && Good(fields, slots) && k <= |fields|
    requires Typed(fields[k..], slots[k..]) && |Wire(fields[k..], slots[k..])| <= U64_MAX
    ensures DecodeFrom(fields, Wire(fields[k..], slots[k..]), slots[..k] + Defaults(fields)[k..]) == Done(slots)
    decreases fields, 3, |fields| - k
  {
    var state := slots[..k] + Defaults(fields)[k..];
    if k == |fields| {
      assert state == slots;
    } else {
      WireFrom(fields, slots, k);
      assert SlotInBounds(fields[k], slots[k]);
      Overwrite(slots[..k], Defaults(fields), slots[k]);
      assert slots[..k] + [slots[k]] == slots[..k + 1];
      FieldRun(fields, k, slots[k], Wire(fields[k + 1..], slots[k + 1..]), state);
      SuffixRun(fields, slots, k + 1);
    }
  }

  /**
   Decode undoes Encode for every schema and every value within its bounds: presence, omitted
   defaults, packed and unpacked repetition, zigzag and nested messages included.
   */
  lemma {:induction false} RoundTrip(fields: seq<Field>, slots: seq<seq<Value>>)
    requires WellFormed(fields) && Typed(fields, slots) && InBounds(fields, slots)
    requires |Wire(fields, slots)| <= U64_MAX
    ensures Decode(fields, Wire(fields, slots)) == Done(slots)
    decreases fields, 4
  {
    assert fields[0..] == fields && slots[0..] == slots;
    assert slots[..0] + Defaults(fields)[0..] == Defaults(fields);
    SuffixRun(fields, slots, 0);
  }

  /* ------------------------------------------------------- what is accepted */

  lemma DefaultsGood(fields: seq<Field>)
    ensures Good(fields, Defaults(fields))
  {
    forall i | 0 <= i < |fields| ensures SlotGood(fields[i], DefaultSlot(fields[i])) {
      if fields[i].rule.Implicit? && !fields[i].kind.Nested? {
        assert ItemTyped(fields[i].kind, DefaultItem(fields[i].kind));
        assert ItemInBounds(fields[i].kind, DefaultItem(fields[i].kind));
      }
    }
  }

  lemma {:induction false} PackedSound(f: Field, input: seq<Byte>, items: seq<Value>)
    requires SlotGood(f, items) && f.kind.Word? && f.rule.Repeated?
    ensures DecodePacked(f.kind.scalar, f.rule.maxCount, input, items).Done? ==>
              SlotGood(f, DecodePacked(f.kind.scalar, f.rule.maxCount, input, items).value)
    decreases |input|
  {
    if input != [] && |items| != f.rule.maxCount {
      var t := TakeScalar(f.kind.scalar, input);
      if t.Taken? {
        assert ItemTyped(f.kind, Num(t.value)) && ItemInBounds(f.kind, Num(t.value));
        PackedSound(f, t.rest, items + [Num(t.value)]);
      }
    }
  }

  lemma {:induction false} ItemSound(kind: Kind, input: seq<Byte>)
    ensures DecodeItem(kind, input).Done? ==>
              && ItemTyped(kind, DecodeItem(kind, input).value.value)
              && ItemInBounds(kind, DecodeItem(kind, input).value.value)
    decreases |input|, 0
  {
    match kind
    case Nested(fields) =>
      var t := TakeBytes(input);
      if t.Taken? { DecodeSound(fields, t.value); }
    case _ =>
  }

  lemma {:induction false} FieldSound(f: Field, wire: nat, input: seq<Byte>, items: seq<Value>)
    requires SlotGood(f, items)
    ensures DecodeField(f, wire, input, items).Done? ==> SlotGood(f, DecodeField(f, wire, input, items).value.items)
    decreases |input|, 1
  {
    if f.rule.Repeated? && f.kind.Word? && wire == 2 {
      if TakeBytes(input).Taken? { PackedSound(f, TakeBytes(input).value, items); }
    } else if wire == KindWire(f.kind) {
      ItemSound(f.kind, input);
    }
  }

  lemma {:induction false} DecodeFromSound(fields: seq<Field>, input: seq<Byte>, slots: seq<seq<Value>>)
    requires Good(fields, slots)
    ensures DecodeFrom(fields, input, slots).Done? ==> Good(fields, DecodeFrom(fields, input, slots).value)
    decreases |input|, 1
  {
    if input != [] && TakeTag(input).Taken? {
      var tag, rest := TakeTag(input).value, TakeTag(input).rest;
      var found := Find(fields, tag.number);
      if found.None? {
        var skipped := Skip(rest, tag.number, tag.wire);
        if skipped.Taken? { DecodeFromSound(fields, skipped.rest, slots); }
      } else {
        var i := found.value;
        FieldSound(fields[i], tag.wire, rest, slots[i]);
        var next := DecodeField(fields[i], tag.wire, rest, slots[i]);
        if next.Done? { DecodeFromSound(fields, next.value.rest, slots[i := next.value.items]); }
      }
    }
  }

  /** Whatever bytes are accepted, the value is of the type and within every bound. */
  lemma {:induction false} DecodeSound(fields: seq<Field>, input: seq<Byte>)
    ensures Decode(fields, input).Done? ==> Good(fields, Decode(fields, input).value)
    decreases |input|, 2
  {
    DefaultsGood(fields);
    DecodeFromSound(fields, input, Defaults(fields));
  }

  /** Accepted bytes, however they were laid out, re-encode within the bound to the same value. */
  lemma Canonical(fields: seq<Field>, input: seq<Byte>)
    requires WellFormed(fields) && MaxWireSize(fields) <= U64_MAX
    requires Decode(fields, input).Done?
    ensures Typed(fields, Decode(fields, input).value)
    ensures |Wire(fields, Decode(fields, input).value)| <= MaxWireSize(fields)
    ensures Decode(fields, Wire(fields, Decode(fields, input).value)) == Decode(fields, input)
  {
    DecodeSound(fields, input);
    var slots := Decode(fields, input).value;
    WireFits(fields, slots);
    RoundTrip(fields, slots);
  }

  /* --------------------------------------------------------- unknown fields */

  lemma ItemSkipped(kind: Kind, v: Value, tail: seq<Byte>, number: nat)
    requires ItemTyped(kind, v) && |ItemBytes(kind, v)| <= U64_MAX
    ensures Skip(ItemBytes(kind, v) + tail, number, KindWire(kind)) == Taken((), tail)
  {
    match kind
    case Word(s) => ScalarReadsBack(s, v.n, tail);
    case Text(_) => BytesReadBack(v.bytes, tail);
    case Blob(_) => BytesReadBack(v.bytes, tail);
    case Nested(fields) => BytesReadBack(Wire(fields, v.slots), tail);
  }

  lemma UnknownTagged(fields: seq<Field>, number: nat, wire: nat, body: seq<Byte>, tail: seq<Byte>, slots: seq<seq<Value>>)
    requires |slots| == |fields| && Find(fields, number).None? && 1 <= number <= MAX_FIELD_NUMBER && wire <= 5
    requires Skip(body + tail, number, wire) == Taken((), tail)
    ensures DecodeFrom(fields, TagBytes(number, wire) + (body + tail), slots) == DecodeFrom(fields, tail, slots)
  {
    TagReadsBack(number, wire, body + tail);
  }

  lemma {:induction false} UnknownItems(fields: seq<Field>, f: Field, items: seq<Value>, tail: seq<Byte>, slots: seq<seq<Value>>)
    requires |slots| == |fields| && Find(fields, f.number).None? && 1 <= f.number <= MAX_FIELD_NUMBER
    requires forall j :: 0 <= j < |items| ==> ItemTyped(f.kind, items[j])
    requires |WireItems(f, items)| <= U64_MAX
    ensures DecodeFrom(fields, WireItems(f, items) + tail, slots) == DecodeFrom(fields, tail, slots)
    decreases |items|
  {
    if items == [] {
      assert WireItems(f, items) + tail == tail;
    } else {
      var more := WireItems(f, items[1..]);
      Regroup(TagBytes(f.number, KindWire(f.kind)), ItemBytes(f.kind, items[0]), more, tail);
      ItemSkipped(f.kind, items[0], more + tail, f.number);
      UnknownTagged(fields, f.number, KindWire(f.kind), ItemBytes(f.kind, items[0]), more + tail, slots);
      UnknownItems(fields, f, items[1..], tail, slots);
    }
  }

  lemma UnknownBytes(fields: seq<Field>, number: nat, payload: seq<Byte>, tail: seq<Byte>, slots: seq<seq<Value>>)
    requires |slots| == |fields| && Find(fields, number).None? && 1 <= number <= MAX_FIELD_NUMBER
    requires |payload| <= U64_MAX
    ensures DecodeFrom(fields, (TagBytes(number, 2) + Delimited(payload)) + tail, slots)
         == DecodeFrom(fields, tail, slots)
  {
    var body := Delimited(payload);
    assert (TagBytes(number, 2) + body) + tail == TagBytes(number, 2) + (body + tail);
    BytesReadBack(payload, tail);
    UnknownTagged(fields, number, 2, body, tail, slots);
  }

  /** The bytes of a field the schema does not have are passed over. */
  lemma UnknownField(fields: seq<Field>, f: Field, items: seq<Value>, tail: seq<Byte>, slots: seq<seq<Value>>)
    requires |slots| == |fields| && Find(fields, f.number).None? && 1 <= f.number <= MAX_FIELD_NUMBER
    requires SlotTyped(f, items) && |WireField(f, items)| <= U64_MAX
    ensures DecodeFrom(fields, WireField(f, items) + tail, slots) == DecodeFrom(fields, tail, slots)
  {
    if Omitted(f, items) || items == [] {
      assert WireField(f, items) + tail == tail;
    } else if IsPacked(f) {
      WordsTyped(f, items);
      UnknownBytes(fields, f.number, PackedBytes(f.kind.scalar, items), tail, slots);
    } else {
      UnknownItems(fields, f, items, tail, slots);
    }
  }

  /** The fields, and their items, whose numbers an older schema knows. */
  function Known(fields: seq<Field>, numbers: set<nat>): (known: seq<Field>)
    ensures |known| <= |fields|
    ensures forall f :: f in known <==> f in fields && f.number in numbers
  {
    if fields == [] then []
    else
      var last := fields[|fields| - 1];
      Known(fields[..|fields| - 1], numbers) + if last.number in numbers then [last] else []
  }

  function KnownSlots(fields: seq<Field>, slots: seq<seq<Value>>, numbers: set<nat>): (known: seq<seq<Value>>)
    requires |fields| == |slots|
    ensures |known| == |Known(fields, numbers)|
  {
    if fields == [] then []
    else
      var n := |fields| - 1;
      KnownSlots(fields[..n], slots[..n], numbers) + if fields[n].number in numbers then [slots[n]] else []
  }

  lemma {:induction false} KnownPrefix(fields: seq<Field>, numbers: set<nat>, k: nat)
    requires k <= |fields|
    ensures Known(fields[..k], numbers) <= Known(fields, numbers)
    decreases |fields| - k
  {
    if k < |fields| {
      assert fields[..k + 1][..k] == fields[..k];
      KnownPrefix(fields, numbers, k + 1);
    } else {
      assert fields[..k] == fields;
    }
  }

  lemma WellFormedPrefix(fields: seq<Field>, n: nat)
    requires WellFormed(fields) && n <= |fields|
    ensures WellFormed(fields[..n])
  {
    forall i | 0 <= i < n ensures FieldWellFormed(fields[..n][i]) {
      assert FieldWellFormed(fields[i]);
    }
  }

  lemma WellFormedMore(known: seq<Field>, f: Field)
    requires WellFormed(known) && FieldWellFormed(f) && 1 <= f.number <= MAX_FIELD_NUMBER
    requires forall g :: g in known ==> g.number < f.number
    ensures WellFormed(known + [f])
  {
    var all := known + [f];
    forall i | 0 <= i < |all| ensures FieldWellFormed(all[i]) {
      if i < |known| { assert FieldWellFormed(known[i]); }
    }
    forall i, j | 0 <= i < j < |all| ensures all[i].number < all[j].number {
      if j == |known| { assert known[i] in known; }
    }
  }

  lemma {:induction false} KnownWellFormed(fields: seq<Field>, numbers: set<nat>)
    requires WellFormed(fields)
    ensures WellFormed(Known(fields, numbers))
  {
    if fields != [] {
      var n := |fields| - 1;
      WellFormedPrefix(fields, n);
      KnownWellFormed(fields[..n], numbers);
      KnownBelow(fields, numbers);
      if fields[n].number in numbers { WellFormedMore(Known(fields[..n], numbers), fields[n]); }
    }
  }

  lemma KnownBelow(fields: seq<Field>, numbers: set<nat>)
    requires WellFormed(fields) && fields != []
    ensures var last := fields[|fields| - 1];
            && FieldWellFormed(last) && 1 <= last.number <= MAX_FIELD_NUMBER
            && forall g :: g in Known(fields[..|fields| - 1], numbers) ==> g.number < last.number
  {
    var n := |fields| - 1;
    forall g | g in fields[..n] ensures g.number < fields[n].number {
      var i :| 0 <= i < n && fields[..n][i] == g;
      assert fields[i].number < fields[n].number;
    }
  }

  /** What the older reader holds after the first `k` fields. */
  ghost function ReadSoFar(fields: seq<Field>, slots: seq<seq<Value>>, numbers: set<nat>, k: nat): (r: seq<seq<Value>>)
    requires |fields| == |slots| && k <= |fields|
    ensures |r| == |Known(fields, numbers)|
  {
    KnownPrefix(fields, numbers, k);
    KnownSlots(fields[..k], slots[..k], numbers) + Defaults(Known(fields, numbers))[|Known(fields[..k], numbers)|..]
  }

  lemma ReadSoFarEnds(fields: seq<Field>, slots: seq<seq<Value>>, numbers: set<nat>)
    requires |fields| == |slots|
    ensures ReadSoFar(fields, slots, numbers, 0) == Defaults(Known(fields, numbers))
    ensures ReadSoFar(fields, slots, numbers, |fields|) == KnownSlots(fields, slots, numbers)
  {
    assert fields[..|fields|] == fields && slots[..|fields|] == slots;
  }

  lemma ReadSoFarSkips(fields: seq<Field>, slots: seq<seq<Value>>, numbers: set<nat>, k: nat)
    requires |fields| == |slots| && k < |fields| && fields[k].number !in numbers
    ensures ReadSoFar(fields, slots, numbers, k + 1) == ReadSoFar(fields, slots, numbers, k)
  {
    KnownNext(fields, slots, numbers, k);
  }

  lemma KnownAt(fields: seq<Field>, slots: seq<seq<Value>>, numbers: set<nat>, k: nat) returns (at: nat)
    requires |fields| == |slots| && k < |fields| && fields[k].number in numbers
    ensures at == |Known(fields[..k], numbers)| == |KnownSlots(fields[..k], slots[..k], numbers)|
    ensures at < |Known(fields, numbers)| && Known(fields, numbers)[at] == fields[k]
  {
    at := |Known(fields[..k], numbers)|;
    KnownNext(fields, slots, numbers, k);
    KnownPrefix(fields, numbers, k + 1);
    assert Known(fields[..k + 1], numbers)[at] == fields[k];
  }

  lemma ReadSoFarTakes(fields: seq<Field>, slots: seq<seq<Value>>, numbers: set<nat>, k: nat) returns (at: nat)
    requires |fields| == |slots| && k < |fields| && fields[k].number in numbers
    ensures at < |Known(fields, numbers)| && Known(fields, numbers)[at] == fields[k]
    ensures ReadSoFar(fields, slots, numbers, k)[at] == DefaultSlot(fields[k])
    ensures ReadSoFar(fields, slots, numbers, k + 1) == ReadSoFar(fields, slots, numbers, k)[at := slots[k]]
  {
    at := KnownAt(fields, slots, numbers, k);
    KnownNext(fields, slots, numbers, k);
    Overwrite(KnownSlots(fields[..k], slots[..k], numbers), Defaults(Known(fields, numbers)), slots[k]);
  }

  lemma KnownNext(fields: seq<Field>, slots: seq<seq<Value>>, numbers: set<nat>, k: nat)
    requires |fields| == |slots| && k < |fields|
    ensures Known(fields[..k + 1], numbers)
         == Known(fields[..k], numbers) + if fields[k].number in numbers then [fields[k]] else []
    ensures KnownSlots(fields[..k + 1], slots[..k + 1], numbers)
         == KnownSlots(fields[..k], slots[..k], numbers) + if fields[k].number in numbers then [slots[k]] else []
  {
    assert fields[..k + 1][..k] == fields[..k] && slots[..k + 1][..k] == slots[..k];
  }

  lemma {:induction false} OlderFrom(fields: seq<Field>, slots: seq<seq<Value>>, numbers: set<nat>, k: nat)
    requires WellFormed(fields) && Good(fields, slots) && k <= |fields|
    requires Typed(fields[k..], slots[k..]) && |Wire(fields[k..], slots[k..])| <= U64_MAX
    ensures DecodeFrom(Known(fields, numbers), Wire(fields[k..], slots[k..]), ReadSoFar(fields, slots, numbers, k))
         == Done(KnownSlots(fields, slots, numbers))
    decreases |fields| - k
  {
    var older := Known(fields, numbers);
    var state := ReadSoFar(fields, slots, numbers, k);
    if k == |fields| {
      ReadSoFarEnds(fields, slots, numbers);
    } else {
      var tail := Wire(fields[k + 1..], slots[k + 1..]);
      WireFrom(fields, slots, k);
      assert SlotInBounds(fields[k], slots[k]);
      OlderFrom(fields, slots, numbers, k + 1);
      if fields[k].number in numbers {
        var at := ReadSoFarTakes(fields, slots, numbers, k);
        KnownWellFormed(fields, numbers);
        FieldRun(older, at, slots[k], tail, state);
      } else {
        ReadSoFarSkips(fields, slots, numbers, k);
        assert Find(older, fields[k].number).None?;
        UnknownField(older, fields[k], slots[k], tail, state);
      }
    }
  }

  /**
   A reader that knows only some of the fields decodes the encoding of the full message to
   exactly the fields it knows.
   */
  lemma OlderReader(fields: seq<Field>, slots: seq<seq<Value>>, numbers: set<nat>)
    requires WellFormed(fields) && Good(fields, slots) && |Wire(fields, slots)| <= U64_MAX
    ensures Decode(Known(fields, numbers), Wire(fields, slots)) == Done(KnownSlots(fields, slots, numbers))
  {
    assert fields[0..] == fields && slots[0..] == slots;
    OlderFrom(fields, slots, numbers, 0);
    ReadSoFarEnds(fields, slots, numbers);
  }
}
