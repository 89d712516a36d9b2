/**
 What a message means, field by field: the input is a sequence of tagged values, a repeated field has
 all values tagged with its number, packed or not, any other field the last one, and values tagged
 with another number or of another wire type do not count. The emitted Decode functions, which go
 through the input once and fill all fields together, compute exactly that.
 */
module DecodingLaw {
  import opened Bytes
  import opened Varint
  import opened Scalars
  import opened Messages
  import opened Decoding
  import Utf8

  /** What follows the first tagged value, if there is one. */
  function Next(input: seq<Byte>): (t: Taken<()>)
    ensures t.Taken? ==> |t.rest| < |input|
  {
    match TakeTag(input)
    case Short => Short
    case Taken(tag, rest) => Skip(rest, tag.number, tag.wire)
  }

  /** The input is a sequence of tagged values. */
  predicate IsStream(input: seq<Byte>)
    decreases |input|
  {
    input == [] || (Next(input).Taken? && IsStream(Next(input).rest))
  }

  /** The words of a packed field. */
  function Words(s: Scalar, packed: seq<Byte>): Option<seq<Value>>
    decreases |packed|
  {
    if packed == [] then Some([])
    else
      match TakeScalar(s, packed)
      case Short => None
      case Taken(n, rest) => Prepend([Num(n)], Words(s, rest))
  }

  function Prepend(first: seq<Value>, rest: Option<seq<Value>>): Option<seq<Value>> {
    match rest case None => None case Some(values) => Some(first + values)
  }

  /** The value of an item that comes next, if it is one and within its bounds. */
  function ItemAt(kind: Kind, input: seq<Byte>): Option<Value>
    decreases |input|, 0
  {
    match kind
    case Word(s) => (match TakeScalar(s, input) case Short => None case Taken(n, _) => Some(Num(n)))
    case Text(maxSize) =>
      (match TakeBytes(input)
       case Short => None
       case Taken(bytes, _) => if Utf8.Valid(bytes) && |bytes| <= maxSize then Some(Data(bytes)) else None)
    case Blob(maxSize) =>
      (match TakeBytes(input)
       case Short => None
       case Taken(bytes, _) => if |bytes| <= maxSize then Some(Data(bytes)) else None)
    case Nested(fields) =>
      match TakeBytes(input)
      case Short => None
      case Taken(bytes, _) => match Meaning(fields, bytes) case None => None case Some(slots) => Some(Record(slots))
  }

  /** The values a field has from what comes next under its number. */
  function ValuesAt(f: Field, wire: nat, input: seq<Byte>): Option<seq<Value>>
    decreases |input|, 1
  {
    if f.rule.Repeated? && f.kind.Word? && wire == 2 then
      match TakeBytes(input) case Short => None case Taken(packed, _) => Words(f.kind.scalar, packed)
    else if wire != KindWire(f.kind) then Some([])
    else match ItemAt(f.kind, input) case None => None case Some(v) => Some([v])
  }

  /** All values of a field, in order. */
  function Values(f: Field, input: seq<Byte>): Option<seq<Value>>
    decreases |input|, 2
  {
    if input == [] then Some([])
    else
      match TakeTag(input)
      case Short => None
      case Taken(tag, rest) =>
        match Skip(rest, tag.number, tag.wire)
        case Short => None
        case Taken(_, after) =>
          if tag.number != f.number then Values(f, after)
          else match ValuesAt(f, tag.wire, rest) case None => None case Some(vs) => Prepend(vs, Values(f, after))
  }

  /** What a field holds that held `items` before. */
  function Holds(f: Field, items: seq<Value>, values: seq<Value>): seq<Value> {
    if f.rule.Repeated? then items + values else if values == [] then items else [values[|values| - 1]]
  }

  predicate Fits(f: Field, items: seq<Value>, values: Option<seq<Value>>) {
    values.Some? && (f.rule.Repeated? ==> |items| + |values.value| <= f.rule.maxCount)
  }

  /** The message the input is, or None if it is malformed or exceeds a bound. */
  function Meaning(fields: seq<Field>, input: seq<Byte>): (slots: Option<seq<seq<Value>>>)
    ensures slots.Some? ==> |slots.value| == |fields|
    decreases |input|, 3
  {
    if IsStream(input) && forall k :: 0 <= k < |fields| ==> Fits(fields[k], [], Values(fields[k], input)) then
      Some(seq(|fields|, k requires 0 <= k < |fields| && Values(fields[k], input).Some? =>
                 Holds(fields[k], DefaultSlot(fields[k]), Values(fields[k], input).value)))
    else None
  }

  /* --------------------------------------------------------------------- the proof */

  lemma {:induction false} PackedLaw(s: Scalar, maxCount: nat, packed: seq<Byte>, items: seq<Value>)
    requires |items| <= maxCount
    ensures var d, w := DecodePacked(s, maxCount, packed, items), Words(s, packed);
            && (d.Done? <==> w.Some? && |items| + |w.value| <= maxCount)
            && (d.Done? ==> d.value == items + w.value)
    decreases |packed|
  {
    if packed == [] {
      assert items + [] == items;
    } else if |items| < maxCount && TakeScalar(s, packed).Taken? {
      var t := TakeScalar(s, packed);
      PackedLaw(s, maxCount, t.rest, items + [Num(t.value)]);
      if Words(s, t.rest).Some? { Regrouped(items, [Num(t.value)], Words(s, t.rest).value); }
    }
  }

  lemma Regrouped(a: seq<Value>, b: seq<Value>, c: seq<Value>)
    ensures a + b + c == a + (b + c)
  {
  }

  /** Reading an item and passing over it end at the same place. */
  lemma WordPasses(s: Scalar, input: seq<Byte>)
    ensures SkipValue(input, WireType(s)) == Forget(TakeWord(WireType(s), input))
    ensures TakeScalar(s, input).Taken? <==> TakeWord(WireType(s), input).Taken?
    ensures TakeScalar(s, input).Taken? ==> TakeScalar(s, input).rest == TakeWord(WireType(s), input).rest
  {
  }

  lemma {:induction false} ItemLaw(kind: Kind, input: seq<Byte>)
    requires kind.Nested? ==> WellFormed(kind.fields)
    ensures DecodeItem(kind, input).Done? <==> ItemAt(kind, input).Some?
    ensures DecodeItem(kind, input).Done? ==>
              && DecodeItem(kind, input).value.value == ItemAt(kind, input).value
              && SkipValue(input, KindWire(kind)) == Taken((), DecodeItem(kind, input).value.rest)
    decreases |input|, 0
  {
    match kind
    case Word(s) => WordPasses(s, input);
    case Text(_) =>
    case Blob(_) =>
    case Nested(fields) => if TakeBytes(input).Taken? { DecodeExactly(fields, TakeBytes(input).value); }
  }

  lemma {:induction false} FieldLaw(f: Field, wire: nat, input: seq<Byte>, items: seq<Value>)
    requires FieldWellFormed(f) && (f.rule.Repeated? ==> |items| <= f.rule.maxCount)
    ensures var d, passed, values := DecodeField(f, wire, input, items), Skip(input, f.number, wire), ValuesAt(f, wire, input);
            && (d.Done? <==> passed.Taken? && Fits(f, items, values))
            && (d.Done? ==> d.value.rest == passed.rest && d.value.items == Holds(f, items, values.value))
    decreases |input|, 1
  {
    if f.rule.Repeated? && f.kind.Word? && wire == 2 {
      var t := TakeBytes(input);
      if t.Taken? { PackedLaw(f.kind.scalar, f.rule.maxCount, t.value, items); }
    } else if wire != KindWire(f.kind) {
      assert items + [] == items;
    } else {
      ItemLaw(f.kind, input);
      NotGroup(f.kind);
    }
  }

  lemma NotGroup(kind: Kind)
    ensures KindWire(kind) != 3
  {
  }

  lemma HoldsTwice(f: Field, items: seq<Value>, a: seq<Value>, b: seq<Value>)
    ensures Holds(f, Holds(f, items, a), b) == Holds(f, items, a + b)
  {
    Regrouped(items, a, b);
  }

  ghost predicate Bounded(fields: seq<Field>, slots: seq<seq<Value>>) {
    |slots| == |fields| &&
    forall k :: 0 <= k < |fields| && fields[k].rule.Repeated? ==> |slots[k]| <= fields[k].rule.maxCount
  }

  /** Every field gets what it holds from its values in the input. */
  ghost predicate Reads(fields: seq<Field>, input: seq<Byte>, slots: seq<seq<Value>>, result: Outcome<seq<seq<Value>>>)
    requires |slots| == |fields|
  {
    && (result.Done? <==>
          IsStream(input) && forall k :: 0 <= k < |fields| ==> Fits(fields[k], slots[k], Values(fields[k], input)))
    && (result.Done? ==>
          |result.value| == |fields| &&
          forall k :: 0 <= k < |fields| ==> IsHeld(fields[k], slots[k], Values(fields[k], input), result.value[k]))
  }

  predicate IsHeld(f: Field, items: seq<Value>, values: Option<seq<Value>>, after: seq<Value>) {
    values.Some? && after == Holds(f, items, values.value)
  }

  lemma EndReads(fields: seq<Field>, slots: seq<seq<Value>>)
    requires Bounded(fields, slots)
    ensures Reads(fields, [], slots, Done(slots))
  {
    forall k | 0 <= k < |fields| ensures slots[k] == Holds(fields[k], slots[k], []) {
      assert slots[k] + [] == slots[k];
    }
  }

  /** A value of no field. */
  lemma UnknownReads(fields: seq<Field>, input: seq<Byte>, slots: seq<seq<Value>>, after: seq<Byte>,
                     result: Outcome<seq<seq<Value>>>)
    requires |slots| == |fields| && input != [] && TakeTag(input).Taken? && Next(input).Taken? && Next(input).rest == after
    requires forall k :: 0 <= k < |fields| ==> fields[k].number != TakeTag(input).value.number
    requires Reads(fields, after, slots, result)
    ensures Reads(fields, input, slots, result)
  {
    forall k | 0 <= k < |fields| ensures Values(fields[k], input) == Values(fields[k], after) {}
  }

  lemma FitsTwice(f: Field, items: seq<Value>, a: seq<Value>, b: Option<seq<Value>>)
    requires Fits(f, items, Some(a))
    ensures Fits(f, items, Prepend(a, b)) <==> Fits(f, Holds(f, items, a), b)
  {
  }

  /** A value of field `i`. */
  lemma KnownReads(fields: seq<Field>, input: seq<Byte>, slots: seq<seq<Value>>, i: nat, after: seq<Byte>,
                   values: seq<Value>, result: Outcome<seq<seq<Value>>>)
    requires |slots| == |fields| && i < |fields| && input != [] && TakeTag(input).Taken? && Next(input).Taken? && Next(input).rest == after
    requires forall k :: 0 <= k < |fields| ==> (fields[k].number == TakeTag(input).value.number <==> k == i)
    requires ValuesAt(fields[i], TakeTag(input).value.wire, TakeTag(input).rest) == Some(values)
    requires Fits(fields[i], slots[i], Some(values))
    requires Reads(fields, after, slots[i := Holds(fields[i], slots[i], values)], result)
    ensures Reads(fields, input, slots, result)
  {
    var next := slots[i := Holds(fields[i], slots[i], values)];
    forall k | 0 <= k < |fields|
      ensures Fits(fields[k], slots[k], Values(fields[k], input)) <==> Fits(fields[k], next[k], Values(fields[k], after))
      ensures Values(fields[k], after).Some? ==>
                Values(fields[k], input).Some? &&
                Holds(fields[k], next[k], Values(fields[k], after).value) ==
                Holds(fields[k], slots[k], Values(fields[k], input).value)
    {
      if k == i { OneMoreValue(fields[i], slots[i], values, Values(fields[i], after)); }
    }
  }

  lemma OneMoreValue(f: Field, items: seq<Value>, a: seq<Value>, b: Option<seq<Value>>)
    requires Fits(f, items, Some(a))
    ensures Fits(f, items, Prepend(a, b)) <==> Fits(f, Holds(f, items, a), b)
    ensures b.Some? ==> Holds(f, Holds(f, items, a), b.value) == Holds(f, items, Prepend(a, b).value)
  {
    FitsTwice(f, items, a, b);
    if b.Some? { HoldsTwice(f, items, a, b.value); }
  }

  lemma MalformedReads(fields: seq<Field>, input: seq<Byte>, slots: seq<seq<Value>>, status: Status)
    requires |slots| == |fields| && input != [] && Next(input).Short?
    ensures Reads(fields, input, slots, Failed(status))
  {
  }

  lemma OnlyField(fields: seq<Field>, i: nat)
    requires WellFormed(fields) && i < |fields|
    ensures forall k :: 0 <= k < |fields| ==> (fields[k].number == fields[i].number <==> k == i)
  {
  }

  /** One step of the decoder. */
  lemma DecodesUnknown(fields: seq<Field>, input: seq<Byte>, slots: seq<seq<Value>>)
    requires |slots| == |fields| && input != [] && TakeTag(input).Taken? && Find(fields, TakeTag(input).value.number).None?
    ensures DecodeFrom(fields, input, slots) ==
            if Next(input).Short? then Failed(ProtocolError) else DecodeFrom(fields, Next(input).rest, slots)
  {
  }

  lemma DecodesKnown(fields: seq<Field>, input: seq<Byte>, slots: seq<seq<Value>>, i: nat)
    requires |slots| == |fields| && input != [] && TakeTag(input).Taken? && i < |fields|
    requires Find(fields, TakeTag(input).value.number) == Some(i)
    ensures var d := DecodeField(fields[i], TakeTag(input).value.wire, TakeTag(input).rest, slots[i]);
            DecodeFrom(fields, input, slots) ==
            if d.Failed? then Failed(d.status) else DecodeFrom(fields, d.value.rest, slots[i := d.value.items])
  {
  }

  lemma {:induction false} FromLaw(fields: seq<Field>, input: seq<Byte>, slots: seq<seq<Value>>)
    requires WellFormed(fields) && Bounded(fields, slots)
    ensures Reads(fields, input, slots, DecodeFrom(fields, input, slots))
    decreases |input|, 2
  {
    if input == [] {
      EndReads(fields, slots);
    } else if TakeTag(input).Short? {
      MalformedReads(fields, input, slots, ProtocolError);
    } else if Find(fields, TakeTag(input).value.number).None? {
      UnknownLaw(fields, input, slots);
    } else {
      KnownLaw(fields, input, slots, Find(fields, TakeTag(input).value.number).value);
    }
  }

  lemma {:induction false} UnknownLaw(fields: seq<Field>, input: seq<Byte>, slots: seq<seq<Value>>)
    requires WellFormed(fields) && Bounded(fields, slots) && input != [] && TakeTag(input).Taken?
    requires Find(fields, TakeTag(input).value.number).None?
    ensures Reads(fields, input, slots, DecodeFrom(fields, input, slots))
    decreases |input|, 1
  {
    DecodesUnknown(fields, input, slots);
    if Next(input).Short? {
      MalformedReads(fields, input, slots, ProtocolError);
    } else {
      FromLaw(fields, Next(input).rest, slots);
      UnknownReads(fields, input, slots, Next(input).rest, DecodeFrom(fields, Next(input).rest, slots));
    }
  }

  lemma {:induction false} KnownLaw(fields: seq<Field>, input: seq<Byte>, slots: seq<seq<Value>>, i: nat)
    requires WellFormed(fields) && Bounded(fields, slots) && input != [] && TakeTag(input).Taken?
    requires Find(fields, TakeTag(input).value.number) == Some(i) && i < |fields|
    ensures Reads(fields, input, slots, DecodeFrom(fields, input, slots))
    decreases |input|, 1
  {
    var wire, rest := TakeTag(input).value.wire, TakeTag(input).rest;
    OnlyField(fields, i);
    DecodesKnown(fields, input, slots, i);
    assert FieldWellFormed(fields[i]);
    FieldLaw(fields[i], wire, rest, slots[i]);
    var d := DecodeField(fields[i], wire, rest, slots[i]);
    if d.Done? {
      FromLaw(fields, d.value.rest, slots[i := d.value.items]);
      KnownReads(fields, input, slots, i, d.value.rest, ValuesAt(fields[i], wire, rest).value,
                 DecodeFrom(fields, d.value.rest, slots[i := d.value.items]));
    } else {
      RefusedReads(fields, input, slots, i);
    }
  }

  lemma RefusedReads(fields: seq<Field>, input: seq<Byte>, slots: seq<seq<Value>>, i: nat)
    requires |slots| == |fields| && i < |fields| && input != [] && TakeTag(input).Taken?
    requires fields[i].number == TakeTag(input).value.number
    requires !(Next(input).Taken? && Fits(fields[i], slots[i], ValuesAt(fields[i], TakeTag(input).value.wire, TakeTag(input).rest)))
    ensures IsStream(input) ==> !Fits(fields[i], slots[i], Values(fields[i], input))
  {
  }

  /** Decoding succeeds exactly if the input has a meaning, and gives it. */
  lemma {:induction false} DecodeExactly(fields: seq<Field>, input: seq<Byte>)
    requires WellFormed(fields)
    ensures Decode(fields, input).Done? <==> Meaning(fields, input).Some?
    ensures Decode(fields, input).Done? ==> Decode(fields, input).value == Meaning(fields, input).value
    decreases |input|, 3
  {
    FromLaw(fields, input, Defaults(fields));
    forall k | 0 <= k < |fields|
      ensures Fits(fields[k], Defaults(fields)[k], Values(fields[k], input)) <==> Fits(fields[k], [], Values(fields[k], input)) {}
  }
}
