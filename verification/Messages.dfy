/**
 Bounded messages: the schema as the generator accepts it, the values of the emitted types,
 the bytes a value is encoded as, and the generator's bound on their number. A message type is
 the list of its fields in number order, with the message types of its fields in place; the
 module SchemaOrder shows that every accepted schema unfolds so.
 */
module Messages {
  import opened Bytes
  import opened Varint
  import opened Scalars
  import Utf8

  datatype Rule = Implicit | Optional | Repeated(maxCount: nat, packed: bool)

  datatype Kind = Word(scalar: Scalar) | Text(maxSize: nat) | Blob(maxSize: nat) | Nested(fields: seq<Field>)

  datatype Field = Field(number: nat, kind: Kind, rule: Rule)

  /** A record holds, for each field in order, the items the field has. */
  datatype Value = Num(n: int) | Data(bytes: seq<Byte>) | Record(slots: seq<seq<Value>>)

  predicate IsPacked(f: Field) {
    f.rule.Repeated? && f.rule.packed && f.kind.Word?
  }

  /** Members that are std::optional: optional fields, and messages that are not repeated. */
  predicate HasPresence(f: Field) {
    f.rule.Optional? || (f.rule.Implicit? && f.kind.Nested?)
  }

  function KindWire(kind: Kind): (wire: nat)
    ensures wire <= 5 && wire != 3 && wire != 4
  {
    if kind.Word? then WireType(kind.scalar) else 2
  }

  ghost predicate WellFormed(fields: seq<Field>)
    decreases fields
  {
    && (forall i :: 0 <= i < |fields| ==> 1 <= fields[i].number <= MAX_FIELD_NUMBER)
    && (forall i, j :: 0 <= i < j < |fields| ==> fields[i].number < fields[j].number)
    && (forall i :: 0 <= i < |fields| ==> FieldWellFormed(fields[i]))
  }

  ghost predicate FieldWellFormed(f: Field)
    decreases f
  {
    match f.kind
    case Nested(fields) => WellFormed(fields)
    case _ => true
  }

  /* ------------------------------------------------------------------ values */

  /** A value of the emitted C++ type. Sizes may exceed the bounds; the code must notice. */
  ghost predicate Typed(fields: seq<Field>, slots: seq<seq<Value>>)
    decreases fields
  {
    && |slots| == |fields|
    && forall i :: 0 <= i < |fields| ==> SlotTyped(fields[i], slots[i])
  }

  ghost predicate SlotTyped(f: Field, items: seq<Value>)
    decreases f
  {
    && (f.rule.Implicit? && !f.kind.Nested? ==> |items| == 1)
    && (HasPresence(f) ==> |items| <= 1)
    && forall j :: 0 <= j < |items| ==> ItemTyped(f.kind, items[j])
  }

  predicate WordTyped(s: Scalar, v: Value) {
    v.Num? && InRange(s, v.n)
  }

  ghost predicate ItemTyped(kind: Kind, v: Value)
    decreases kind
  {
    match kind
    case Word(s) => WordTyped(s, v)
    case Text(_) => v.Data?
    case Blob(_) => v.Data?
    case Nested(fields) => v.Record? && Typed(fields, v.slots)
  }

  lemma WordsTyped(f: Field, items: seq<Value>)
    requires SlotTyped(f, items) && f.kind.Word?
    ensures forall j :: 0 <= j < |items| ==> WordTyped(f.kind.scalar, items[j])
  {
    assert forall j :: 0 <= j < |items| ==> ItemTyped(f.kind, items[j]);
  }

  /** Within the declared bounds, with every string valid UTF-8. */
  ghost predicate InBounds(fields: seq<Field>, slots: seq<seq<Value>>)
    requires |fields| == |slots|
    decreases fields
  {
    forall i :: 0 <= i < |fields| ==> SlotInBounds(fields[i], slots[i])
  }

  ghost predicate SlotInBounds(f: Field, items: seq<Value>)
    decreases f
  {
    && (f.rule.Repeated? ==> |items| <= f.rule.maxCount)
    && forall j :: 0 <= j < |items| ==> ItemInBounds(f.kind, items[j])
  }

  ghost predicate ItemInBounds(kind: Kind, v: Value)
    decreases kind
  {
    match kind
    case Word(_) => true
    case Text(maxSize) => v.Data? && |v.bytes| <= maxSize && Utf8.Valid(v.bytes)
    case Blob(maxSize) => v.Data? && |v.bytes| <= maxSize
    case Nested(fields) => v.Record? && |v.slots| == |fields| && InBounds(fields, v.slots)
  }

  function DefaultItem(kind: Kind): Value {
    match kind
    case Word(_) => Num(0)
    case Text(_) => Data([])
    case Blob(_) => Data([])
    case Nested(_) => Record([])
  }

  function DefaultSlot(f: Field): seq<Value> {
    if f.rule.Implicit? && !f.kind.Nested? then [DefaultItem(f.kind)] else []
  }

  function Defaults(fields: seq<Field>): (slots: seq<seq<Value>>)
    ensures |slots| == |fields|
  {
    seq(|fields|, i requires 0 <= i < |fields| => DefaultSlot(fields[i]))
  }

  /* ------------------------------------------------------------- wire format */

  /** A field without presence is left out when it has its default value. */
  predicate Omitted(f: Field, items: seq<Value>) {
    f.rule.Implicit? && !f.kind.Nested? && items == [DefaultItem(f.kind)]
  }

  ghost function Wire(fields: seq<Field>, slots: seq<seq<Value>>): seq<Byte>
    requires Typed(fields, slots)
    decreases fields, 1
  {
    if fields == [] then [] else WireField(fields[0], slots[0]) + Wire(fields[1..], slots[1..])
  }

  ghost function WireField(f: Field, items: seq<Value>): seq<Byte>
    requires SlotTyped(f, items)
    decreases f, 2, 0
  {
    if Omitted(f, items) || items == [] then []
    else if IsPacked(f) then
      WordsTyped(f, items);
      TagBytes(f.number, 2) + Delimited(PackedBytes(f.kind.scalar, items))
    else WireItems(f, items)
  }

  ghost function WireItems(f: Field, items: seq<Value>): seq<Byte>
    requires forall j :: 0 <= j < |items| ==> ItemTyped(f.kind, items[j])
    decreases f, 1, |items|
  {
    if items == [] then []
    else TagBytes(f.number, KindWire(f.kind)) + ItemBytes(f.kind, items[0]) + WireItems(f, items[1..])
  }

  ghost function ItemBytes(kind: Kind, v: Value): seq<Byte>
    requires ItemTyped(kind, v)
    decreases kind
  {
    match kind
    case Word(s) => ScalarBytes(s, v.n)
    case Text(_) => Delimited(v.bytes)
    case Blob(_) => Delimited(v.bytes)
    case Nested(fields) => Delimited(Wire(fields, v.slots))
  }

  function PackedBytes(s: Scalar, items: seq<Value>): seq<Byte>
    requires forall j :: 0 <= j < |items| ==> WordTyped(s, items[j])
  {
    if items == [] then []
    else
      assert WordTyped(s, items[0]);
      ScalarBytes(s, items[0].n) + PackedBytes(s, items[1..])
  }

  /** The encoding from one field on is the field's bytes and the encoding from the next on. */
  lemma WireFrom(fields: seq<Field>, slots: seq<seq<Value>>, k: nat)
    requires Typed(fields, slots) && k < |fields|
    ensures Typed(fields[k..], slots[k..]) && Typed(fields[k + 1..], slots[k + 1..])
    ensures SlotTyped(fields[k], slots[k])
    ensures Wire(fields[k..], slots[k..]) == WireField(fields[k], slots[k]) + Wire(fields[k + 1..], slots[k + 1..])
  {
    assert fields[k..][1..] == fields[k + 1..] && slots[k..][1..] == slots[k + 1..];
  }

  /* -------------------------------------------------------- maximum wire size */

  function DelimitedMax(tag: nat, payload: nat): nat {
    tag + |VarintBytes(payload)| + payload
  }

  function FieldMax(f: Field): nat
    decreases f
  {
    var tag := |TagBytes(f.number, KindWire(f.kind))|;
    match f.kind
    case Word(s) =>
      if IsPacked(f) then DelimitedMax(tag, f.rule.maxCount * MaxSize(s))
      else Times(f.rule, tag + MaxSize(s))
    case Text(maxSize) => Times(f.rule, DelimitedMax(tag, maxSize))
    case Blob(maxSize) => Times(f.rule, DelimitedMax(tag, maxSize))
    case Nested(fields) => Times(f.rule, DelimitedMax(tag, MaxWireSize(fields)))
  }

  function Times(rule: Rule, size: nat): nat {
    if rule.Repeated? then rule.maxCount * size else size
  }

  function SumMax(fields: seq<Field>): nat
    decreases fields, 0
  {
    if fields == [] then 0 else FieldMax(fields[0]) + SumMax(fields[1..])
  }

  function MaxWireSize(fields: seq<Field>): (size: nat)
    ensures size >= 1
    decreases fields, 1
  {
    if SumMax(fields) >= 1 then SumMax(fields) else 1
  }

  lemma {:induction false} PackedFits(s: Scalar, items: seq<Value>)
    requires forall j :: 0 <= j < |items| ==> WordTyped(s, items[j])
    ensures |PackedBytes(s, items)| <= |items| * MaxSize(s)
  {
    if items != [] {
      ScalarFits(s, items[0].n);
      PackedFits(s, items[1..]);
    }
  }

  lemma DelimitedFits(payload: seq<Byte>, limit: nat)
    requires |payload| <= limit
    ensures |Delimited(payload)| <= |VarintBytes(limit)| + limit
  {
    VarintSizeGrows(|payload|, limit);
  }

  function ItemMax(kind: Kind): nat {
    match kind
    case Word(s) => MaxSize(s)
    case Text(maxSize) => DelimitedMax(0, maxSize)
    case Blob(maxSize) => DelimitedMax(0, maxSize)
    case Nested(fields) => DelimitedMax(0, MaxWireSize(fields))
  }

  lemma {:induction false} ItemFits(kind: Kind, v: Value)
    requires ItemTyped(kind, v) && ItemInBounds(kind, v)
    ensures |ItemBytes(kind, v)| <= ItemMax(kind)
    decreases kind
  {
    match kind
    case Word(s) => ScalarFits(s, v.n);
    case Text(maxSize) => DelimitedFits(v.bytes, maxSize);
    case Blob(maxSize) => DelimitedFits(v.bytes, maxSize);
    case Nested(fields) =>
      WireFits(fields, v.slots);
      DelimitedFits(Wire(fields, v.slots), MaxWireSize(fields));
  }

  lemma {:induction false} ItemsFit(f: Field, items: seq<Value>)
    requires forall j :: 0 <= j < |items| ==> ItemTyped(f.kind, items[j]) && ItemInBounds(f.kind, items[j])
    ensures |WireItems(f, items)| <= |items| * (|TagBytes(f.number, KindWire(f.kind))| + ItemMax(f.kind))
    decreases f, 1, |items|
  {
    if items != [] {
      var size := |TagBytes(f.number, KindWire(f.kind))| + ItemMax(f.kind);
      ItemFits(f.kind, items[0]);
      ItemsFit(f, items[1..]);
      assert size + (|items| - 1) * size == |items| * size;
    }
  }

  lemma {:induction false} FieldFits(f: Field, items: seq<Value>)
    requires SlotTyped(f, items) && SlotInBounds(f, items)
    ensures |WireField(f, items)| <= FieldMax(f)
    decreases f, 2, 0
  {
    if IsPacked(f) {
      WordsTyped(f, items);
      PackedFits(f.kind.scalar, items);
      MoreItems(|items|, f.rule.maxCount, MaxSize(f.kind.scalar));
      DelimitedFits(PackedBytes(f.kind.scalar, items), f.rule.maxCount * MaxSize(f.kind.scalar));
      TagSizeIgnoresWire(f.number, 2);
      TagSizeIgnoresWire(f.number, KindWire(f.kind));
    } else {
      ItemsFit(f, items);
      var size := |TagBytes(f.number, KindWire(f.kind))| + ItemMax(f.kind);
      MoreItems(|items|, if f.rule.Repeated? then f.rule.maxCount else 1, size);
    }
  }

  lemma MoreItems(few: nat, many: nat, size: nat)
    requires few <= many
    ensures few * size <= many * size
  {
  }

  /**
   An in-bounds value never needs more bytes than the generator computed, for every schema:
   the buffers the emitted code declares are always large enough.
   */
  lemma {:induction false} WireFits(fields: seq<Field>, slots: seq<seq<Value>>)
    requires Typed(fields, slots) && InBounds(fields, slots)
    ensures |Wire(fields, slots)| <= SumMax(fields) <= MaxWireSize(fields)
    decreases fields, 1
  {
    if fields != [] {
      FieldFits(fields[0], slots[0]);
      WireFits(fields[1..], slots[1..]);
    }
  }
}
