/**
 The Protocol Buffers wire format as other implementations read it, digit by digit and type by
 type, and the proof that the bytes of Messages are exactly the ones it prescribes.
 */
module WireFormat {
  import opened Bytes
  import opened LittleEndian
  import opened Varint
  import opened Scalars
  import opened Messages

  function Power128(n: nat): (power: nat)
    ensures power > 0
  {
    if n == 0 then 1 else 128 * Power128(n - 1)
  }

  /* ------------------------------------------------------------------ the law */

  /** The byte carries digit `i` of the value, base 128. */
  predicate Carries(byte: Byte, value: nat, i: nat) {
    byte % 128 == value / Power128(i) % 128
  }

  /** Base-128 digits, lowest first, the high bit on all but the last byte. */
  ghost predicate IsNumber(bytes: seq<Byte>, value: nat) {
    && bytes != []
    && (forall i :: 0 <= i < |bytes| ==> Carries(bytes[i], value, i))
    && (forall i :: 0 <= i < |bytes| ==> (bytes[i] >= 128 <==> i + 1 < |bytes|))
    && value < Power128(|bytes|)
  }

  /** And no digit too many: what is to be written. */
  ghost predicate IsVarint(bytes: seq<Byte>, value: nat) {
    IsNumber(bytes, value) && (|bytes| == 1 || value >= Power128(|bytes| - 1))
  }

  /** The number sent for a value: signed types by modulus, except that sint counts 0, -1, 1, -2, ... */
  function Number(s: Scalar, n: int): nat
    requires InRange(s, n)
  {
    match s
    case SInt32 | SInt64 => if n >= 0 then 2 * n else -2 * n - 1
    case Int32 | Int64 | Enumeration | SFixed64 => n % TWO_64
    case SFixed32 => n % TWO_32
    case Boolean | UInt32 | UInt64 | Fixed32 | Fixed64 | Float | Double => n
  }

  ghost predicate IsWord(s: Scalar, n: int, bytes: seq<Byte>)
    requires InRange(s, n)
  {
    match s
    case Fixed32 | SFixed32 | Float => IsFixed(bytes, 4, Number(s, n))
    case Fixed64 | SFixed64 | Double => IsFixed(bytes, 8, Number(s, n))
    case _ => IsVarint(bytes, Number(s, n))
  }

  function TypeOnWire(kind: Kind): nat {
    match kind
    case Word(s) =>
      (match s
       case Fixed32 | SFixed32 | Float => 5
       case Fixed64 | SFixed64 | Double => 1
       case _ => 0)
    case Text(_) => 2
    case Blob(_) => 2
    case Nested(_) => 2
  }

  ghost predicate IsTag(bytes: seq<Byte>, number: nat, wire: nat) {
    IsVarint(bytes, 8 * number + wire)
  }

  /** The length and then the bytes. */
  ghost predicate IsDelimited(bytes: seq<Byte>, body: seq<Byte>) {
    exists i :: 0 <= i <= |bytes| && IsVarint(bytes[..i], |body|) && bytes[i..] == body
  }

  /** Nothing is sent for a field that has no items, or no presence and its default value. */
  predicate Absent(f: Field, items: seq<Value>) {
    || items == []
    || (f.rule.Implicit? && !f.kind.Nested? && (items == [Num(0)] || items == [Data([])]))
  }

  ghost predicate IsItem(kind: Kind, v: Value, bytes: seq<Byte>)
    requires ItemTyped(kind, v)
    decreases kind
  {
    match kind
    case Word(s) => IsWord(s, v.n, bytes)
    case Text(_) => IsDelimited(bytes, v.bytes)
    case Blob(_) => IsDelimited(bytes, v.bytes)
    case Nested(fields) => exists body :: IsMessage(fields, v.slots, body) && IsDelimited(bytes, body)
  }

  /** A tag and an item for each. */
  ghost predicate AreRecords(f: Field, items: seq<Value>, bytes: seq<Byte>)
    requires forall j :: 0 <= j < |items| ==> ItemTyped(f.kind, items[j])
    decreases f, 1, |items|
  {
    if items == [] then bytes == []
    else
      exists i, j :: 0 <= i <= j <= |bytes| && IsRecord(f, items[0], bytes, i, j) && AreRecords(f, items[1..], bytes[j..])
  }

  ghost predicate IsRecord(f: Field, v: Value, bytes: seq<Byte>, i: nat, j: nat)
    requires ItemTyped(f.kind, v) && i <= j <= |bytes|
    decreases f, 0
  {
    IsTag(bytes[..i], f.number, TypeOnWire(f.kind)) && IsItem(f.kind, v, bytes[i..j])
  }

  /** The items of a packed field one after another. */
  ghost predicate AreWords(s: Scalar, items: seq<Value>, bytes: seq<Byte>)
    requires forall j :: 0 <= j < |items| ==> WordTyped(s, items[j])
    decreases |items|
  {
    if items == [] then bytes == []
    else
      assert WordTyped(s, items[0]);
      exists i :: 0 <= i <= |bytes| && IsWord(s, items[0].n, bytes[..i]) && AreWords(s, items[1..], bytes[i..])
  }

  ghost predicate IsPackedField(f: Field, items: seq<Value>, bytes: seq<Byte>, body: seq<Byte>)
    requires f.kind.Word? && forall j :: 0 <= j < |items| ==> WordTyped(f.kind.scalar, items[j])
  {
    && AreWords(f.kind.scalar, items, body)
    && exists i :: 0 <= i <= |bytes| && IsTag(bytes[..i], f.number, 2) && IsDelimited(bytes[i..], body)
  }

  ghost predicate IsField(f: Field, items: seq<Value>, bytes: seq<Byte>)
    requires SlotTyped(f, items)
    decreases f, 2, 0
  {
    if Absent(f, items) then bytes == []
    else if IsPacked(f) then
      WordsTyped(f, items);
      exists body :: IsPackedField(f, items, bytes, body)
    else AreRecords(f, items, bytes)
  }

  /** The fields in number order. */
  ghost predicate IsMessage(fields: seq<Field>, slots: seq<seq<Value>>, bytes: seq<Byte>)
    requires Typed(fields, slots)
    decreases fields, 1
  {
    if fields == [] then bytes == []
    else
      exists i :: 0 <= i <= |bytes| && IsField(fields[0], slots[0], bytes[..i])
                  && IsMessage(fields[1..], slots[1..], bytes[i..])
  }

  /* ------------------------------------------------------------------- digits */

  lemma NextDigit128(value: nat, i: nat)
    ensures value / 128 / Power128(i) == value / Power128(i + 1)
  {
    DivideTwice(value, 128, Power128(i));
  }

  /* ---------------------------------------------------------------- exactness */

  lemma {:induction false} VarintLaw(value: nat)
    ensures IsVarint(VarintBytes(value), value)
  {
    if value < 128 {
      assert Power128(1) == 128;
      assert Carries(value, value, 0);
    } else {
      VarintLaw(value / 128);
      LawStep(value, VarintBytes(value / 128));
    }
  }

  lemma LawStep(value: nat, tail: seq<Byte>)
    requires value >= 128 && IsVarint(tail, value / 128)
    ensures IsVarint([value % 128 + 128] + tail, value)
  {
    var bytes: seq<Byte> := [value % 128 + 128] + tail;
    forall i | 0 <= i < |bytes| ensures Carries(bytes[i], value, i) && (bytes[i] >= 128 <==> i + 1 < |bytes|) {
      if i == 0 { LowDigit(value); } else { HighDigit(tail[i - 1], value, i); }
    }
    Bounds(value, |tail|);
  }

  lemma LowDigit(value: nat)
    ensures Carries(value % 128 + 128, value, 0)
  {
  }

  lemma HighDigit(byte: Byte, value: nat, i: nat)
    requires i > 0 && Carries(byte, value / 128, i - 1)
    ensures Carries(byte, value, i)
  {
    NextDigit128(value, i - 1);
  }

  lemma Bounds(value: nat, n: nat)
    requires n > 0 && value >= 128 && value / 128 < Power128(n) && (n == 1 || value / 128 >= Power128(n - 1))
    ensures Power128(n) <= value < Power128(n + 1)
  {
  }

  lemma {:induction false} PowersGrow(i: nat, j: nat)
    requires i <= j
    ensures Power128(i) <= Power128(j)
    decreases j
  {
    if i < j { PowersGrow(i, j - 1); }
  }

  /** The number of bytes is the only one for which the digits fit and none is too many. */
  lemma SameLength(a: seq<Byte>, b: seq<Byte>, value: nat)
    requires IsVarint(a, value) && IsVarint(b, value)
    ensures |a| == |b|
  {
    if |a| < |b| { PowersGrow(|a|, |b| - 1); }
    if |b| < |a| { PowersGrow(|b|, |a| - 1); }
  }

  lemma SameByte(x: Byte, y: Byte, value: nat, i: nat)
    requires Carries(x, value, i) && Carries(y, value, i) && (x >= 128 <==> y >= 128)
    ensures x == y
  {
  }

  lemma OneVarint(a: seq<Byte>, b: seq<Byte>, value: nat)
    requires IsVarint(a, value) && IsVarint(b, value)
    ensures a == b
  {
    SameLength(a, b, value);
    forall i | 0 <= i < |a| ensures a[i] == b[i] {
      SameByte(a[i], b[i], value, i);
    }
  }

  lemma VarintExactly(bytes: seq<Byte>, value: nat)
    ensures IsVarint(bytes, value) <==> bytes == VarintBytes(value)
  {
    VarintLaw(value);
    if IsVarint(bytes, value) { OneVarint(bytes, VarintBytes(value), value); }
  }

  lemma NumberIsRaw(s: Scalar, n: int)
    requires InRange(s, n)
    ensures Number(s, n) == Raw(s, n)
  {
    match s
    case SInt32 => ZigZagOrder(n, TWO_32);
    case SInt64 => ZigZagOrder(n, TWO_64);
    case _ =>
  }

  lemma WordExactly(s: Scalar, n: int, bytes: seq<Byte>)
    requires InRange(s, n)
    ensures IsWord(s, n, bytes) <==> bytes == ScalarBytes(s, n)
  {
    NumberIsRaw(s, n);
    VarintExactly(bytes, Number(s, n));
    FixedExactly(bytes, 4, Number(s, n));
    FixedExactly(bytes, 8, Number(s, n));
  }

  lemma TagExactly(bytes: seq<Byte>, number: nat, wire: nat)
    ensures IsTag(bytes, number, wire) <==> bytes == TagBytes(number, wire)
  {
    VarintExactly(bytes, 8 * number + wire);
  }

  lemma DelimitedExactly(bytes: seq<Byte>, body: seq<Byte>)
    ensures IsDelimited(bytes, body) <==> bytes == Delimited(body)
  {
    if i :| 0 <= i <= |bytes| && IsVarint(bytes[..i], |body|) && bytes[i..] == body {
      VarintExactly(bytes[..i], |body|);
      assert bytes == bytes[..i] + bytes[i..];
    }
    if bytes == Delimited(body) {
      var i := |VarintBytes(|body|)|;
      VarintExactly(bytes[..i], |body|);
      assert bytes[..i] == VarintBytes(|body|) && bytes[i..] == body;
    }
  }

  lemma Joined(bytes: seq<Byte>, i: nat, j: nat)
    requires i <= j <= |bytes|
    ensures bytes == bytes[..i] + bytes[i..j] + bytes[j..] && bytes == bytes[..i] + bytes[i..]
  {
  }

  lemma Cut(a: seq<Byte>, b: seq<Byte>, c: seq<Byte>)
    ensures var bytes, i, j := a + b + c, |a|, |a| + |b|; bytes[..i] == a && bytes[i..j] == b && bytes[j..] == c
  {
  }

  lemma CutOnce(a: seq<Byte>, b: seq<Byte>)
    ensures (a + b)[..|a|] == a && (a + b)[|a|..] == b
  {
  }

  lemma {:induction false} WordsExactly(s: Scalar, items: seq<Value>, bytes: seq<Byte>)
    requires forall j :: 0 <= j < |items| ==> WordTyped(s, items[j])
    ensures AreWords(s, items, bytes) <==> bytes == PackedBytes(s, items)
    decreases |items|
  {
    if items != [] {
      assert WordTyped(s, items[0]);
      var first, rest := ScalarBytes(s, items[0].n), PackedBytes(s, items[1..]);
      if i :| 0 <= i <= |bytes| && IsWord(s, items[0].n, bytes[..i]) && AreWords(s, items[1..], bytes[i..]) {
        WordExactly(s, items[0].n, bytes[..i]);
        WordsExactly(s, items[1..], bytes[i..]);
        Joined(bytes, i, i);
      }
      if bytes == first + rest {
        WordExactly(s, items[0].n, first);
        WordsExactly(s, items[1..], rest);
        CutOnce(first, rest);
      }
    }
  }

  lemma {:induction false} ItemExactly(kind: Kind, v: Value, bytes: seq<Byte>)
    requires ItemTyped(kind, v)
    ensures IsItem(kind, v, bytes) <==> bytes == ItemBytes(kind, v)
    decreases kind
  {
    match kind
    case Word(s) => WordExactly(s, v.n, bytes);
    case Text(_) => DelimitedExactly(bytes, v.bytes);
    case Blob(_) => DelimitedExactly(bytes, v.bytes);
    case Nested(fields) =>
      if body :| IsMessage(fields, v.slots, body) && IsDelimited(bytes, body) {
        WireExactly(fields, v.slots, body);
        DelimitedExactly(bytes, body);
      }
      var wire := Wire(fields, v.slots);
      WireExactly(fields, v.slots, wire);
      DelimitedExactly(bytes, wire);
  }

  lemma {:induction false} RecordExactly(f: Field, v: Value, bytes: seq<Byte>, i: nat, j: nat)
    requires ItemTyped(f.kind, v) && i <= j <= |bytes|
    ensures IsRecord(f, v, bytes, i, j) <==>
            bytes[..i] == TagBytes(f.number, KindWire(f.kind)) && bytes[i..j] == ItemBytes(f.kind, v)
    decreases f, 0
  {
    TagExactly(bytes[..i], f.number, TypeOnWire(f.kind));
    ItemExactly(f.kind, v, bytes[i..j]);
  }

  lemma {:induction false} RecordsExactly(f: Field, items: seq<Value>, bytes: seq<Byte>)
    requires forall j :: 0 <= j < |items| ==> ItemTyped(f.kind, items[j])
    ensures AreRecords(f, items, bytes) <==> bytes == WireItems(f, items)
    decreases f, 1, |items|
  {
    if items != [] {
      var tag, item := TagBytes(f.number, KindWire(f.kind)), ItemBytes(f.kind, items[0]);
      var rest := WireItems(f, items[1..]);
      if i, j :| 0 <= i <= j <= |bytes| && IsRecord(f, items[0], bytes, i, j) && AreRecords(f, items[1..], bytes[j..]) {
        RecordExactly(f, items[0], bytes, i, j);
        RecordsExactly(f, items[1..], bytes[j..]);
        Joined(bytes, i, j);
      }
      if bytes == tag + item + rest {
        var i, j := |tag|, |tag| + |item|;
        Cut(tag, item, rest);
        RecordExactly(f, items[0], bytes, i, j);
        RecordsExactly(f, items[1..], rest);
      }
    }
  }

  lemma PackedFieldExactly(f: Field, items: seq<Value>, bytes: seq<Byte>, body: seq<Byte>)
    requires f.kind.Word? && forall j :: 0 <= j < |items| ==> WordTyped(f.kind.scalar, items[j])
    ensures IsPackedField(f, items, bytes, body) <==>
            body == PackedBytes(f.kind.scalar, items) && bytes == TagBytes(f.number, 2) + Delimited(body)
  {
    WordsExactly(f.kind.scalar, items, body);
    if i :| 0 <= i <= |bytes| && IsTag(bytes[..i], f.number, 2) && IsDelimited(bytes[i..], body) {
      TagExactly(bytes[..i], f.number, 2);
      DelimitedExactly(bytes[i..], body);
      assert bytes == bytes[..i] + bytes[i..];
    }
    var tag := TagBytes(f.number, 2);
    if bytes == tag + Delimited(body) {
      assert bytes[..|tag|] == tag && bytes[|tag|..] == Delimited(body);
      TagExactly(tag, f.number, 2);
      DelimitedExactly(Delimited(body), body);
    }
  }

  lemma AbsentIsOmitted(f: Field, items: seq<Value>)
    requires SlotTyped(f, items)
    ensures Absent(f, items) <==> Omitted(f, items) || items == []
  {
    if |items| == 1 { assert ItemTyped(f.kind, items[0]); }
  }

  lemma {:induction false} FieldExactly(f: Field, items: seq<Value>, bytes: seq<Byte>)
    requires SlotTyped(f, items)
    ensures IsField(f, items, bytes) <==> bytes == WireField(f, items)
    decreases f, 2, 0
  {
    AbsentIsOmitted(f, items);
    if IsPacked(f) {
      WordsTyped(f, items);
      forall body ensures IsPackedField(f, items, bytes, body) <==>
                          body == PackedBytes(f.kind.scalar, items) && bytes == TagBytes(f.number, 2) + Delimited(body)
      {
        PackedFieldExactly(f, items, bytes, body);
      }
    } else {
      RecordsExactly(f, items, bytes);
    }
  }

  /** The bytes of a message are the ones the format prescribes, and no others are. */
  lemma {:induction false} WireExactly(fields: seq<Field>, slots: seq<seq<Value>>, bytes: seq<Byte>)
    requires Typed(fields, slots)
    ensures IsMessage(fields, slots, bytes) <==> bytes == Wire(fields, slots)
    decreases fields, 1
  {
    if fields != [] {
      var first, rest := WireField(fields[0], slots[0]), Wire(fields[1..], slots[1..]);
      if i :| 0 <= i <= |bytes| && IsField(fields[0], slots[0], bytes[..i])
              && IsMessage(fields[1..], slots[1..], bytes[i..]) {
        FieldExactly(fields[0], slots[0], bytes[..i]);
        WireExactly(fields[1..], slots[1..], bytes[i..]);
        assert bytes == bytes[..i] + bytes[i..];
      }
      if bytes == first + rest {
        assert bytes[..|first|] == first && bytes[|first|..] == rest;
        FieldExactly(fields[0], slots[0], first);
        WireExactly(fields[1..], slots[1..], rest);
      }
    }
  }

  /* ------------------------------------------------------------------ reading */

  /** Bytes a reader accepts for a word: a varint of at most ten bytes and 64 bits, or a fixed word. */
  ghost predicate IsReadable(s: Scalar, bytes: seq<Byte>, raw: nat) {
    match s
    case Fixed32 | SFixed32 | Float => IsFixed(bytes, 4, raw) && raw < TWO_32
    case Fixed64 | SFixed64 | Double => IsFixed(bytes, 8, raw) && raw < TWO_64
    case _ => IsNumber(bytes, raw) && |bytes| <= 10 && raw < TWO_64
  }

  /** The value such a word stands for: 32-bit types take the low half, any other number is true. */
  ghost predicate Means(s: Scalar, raw: nat, n: int) {
    && InRange(s, n)
    && match s
       case Boolean => n == 1 <==> raw != 0
       case Int32 | Enumeration | UInt32 | SFixed32 => (raw - n) % TWO_32 == 0
       case Int64 | SFixed64 => (raw - n) % TWO_64 == 0
       case SInt32 => Number(s, n) == raw % TWO_32
       case SInt64 => Number(s, n) == raw
       case _ => n == raw
  }

  lemma MeaningIsFromRaw(s: Scalar, raw: nat)
    requires raw < TWO_64 && (WireType(s) == 5 ==> raw < TWO_32)
    ensures Means(s, raw, FromRaw(s, raw))
  {
    match s
    case SInt32 => UnZigZagOrder(raw % TWO_32, TWO_32);
    case SInt64 => UnZigZagOrder(raw, TWO_64);
    case Int32 | Enumeration => Residue(raw, TWO_32);
    case SFixed32 => Residue(raw, TWO_32);
    case Int64 | SFixed64 => Residue(raw, TWO_64);
    case UInt32 => LowHalf(raw);
    case _ =>
  }

  lemma UnZigZagOrder(word: nat, modulus: nat)
    requires (modulus == TWO_32 || modulus == TWO_64) && word < modulus
    ensures var n := UnZigZag(word, modulus); Signed(n, modulus) && word == if n >= 0 then 2 * n else -2 * n - 1
  {
  }

  lemma Residue(raw: nat, modulus: nat)
    requires modulus == TWO_32 || modulus == TWO_64
    ensures (raw - FromBits(raw % modulus, modulus)) % modulus == 0
    ensures raw < modulus ==> raw % modulus == raw
  {
    if modulus == TWO_32 { Residue32(raw); } else { Residue64(raw); }
  }

  lemma Residue32(raw: nat)
    ensures (raw - FromBits(raw % TWO_32, TWO_32)) % TWO_32 == 0
  {
  }

  lemma Residue64(raw: nat)
    ensures (raw - FromBits(raw % TWO_64, TWO_64)) % TWO_64 == 0
  {
  }

  lemma LowHalf(raw: nat)
    ensures (raw - raw % TWO_32) % TWO_32 == 0
  {
  }

  lemma OneMeaning(s: Scalar, raw: nat, n: int, m: int)
    requires Means(s, raw, n) && Means(s, raw, m)
    ensures n == m
  {
    match s
    case Int32 | Enumeration | UInt32 | SFixed32 => OneResidue(raw, n, m, TWO_32);
    case Int64 | SFixed64 => OneResidue(raw, n, m, TWO_64);
    case _ =>
  }

  lemma OneResidue(raw: nat, n: int, m: int, modulus: nat)
    requires modulus == TWO_32 || modulus == TWO_64
    requires (raw - n) % modulus == 0 && (raw - m) % modulus == 0 && n - m < modulus && m - n < modulus
    ensures n == m
  {
  }

  lemma {:induction false} TakenNumber(input: seq<Byte>, index: nat) returns (k: nat)
    requires index <= 10 && TakeVarint(input, index).Taken?
    ensures 0 < k <= |input| && index + k <= 10
    ensures var t := TakeVarint(input, index); t.rest == input[k..] && IsNumber(input[..k], t.value)
    decreases 10 - index
  {
    k := 1;
    if input[0] < 128 {
      OneDigit(input[0]);
      assert input[..1] == [input[0]];
    } else {
      k := TakenNumber(input[1..], index + 1);
      NumberStep(input[0], input[1..][..k], TakeVarint(input[1..], index + 1).value);
      Shifted(input, k);
      k := k + 1;
    }
  }

  lemma OneDigit(byte: Byte)
    requires byte < 128
    ensures IsNumber([byte], byte)
  {
    assert Power128(1) == 128;
    assert Carries(byte, byte, 0);
  }

  lemma Shifted(input: seq<Byte>, k: nat)
    requires k < |input|
    ensures input[..k + 1] == [input[0]] + input[1..][..k] && input[1..][k..] == input[k + 1..]
  {
  }

  /** A digit in front. */
  lemma NumberStep(byte: Byte, tail: seq<Byte>, high: nat)
    requires byte >= 128 && IsNumber(tail, high)
    ensures IsNumber([byte] + tail, byte - 128 + 128 * high)
  {
    var value, bytes := byte - 128 + 128 * high, [byte] + tail;
    assert value / 128 == high && value % 128 == byte - 128;
    forall i | 0 <= i < |bytes| ensures Carries(bytes[i], value, i) && (bytes[i] >= 128 <==> i + 1 < |bytes|) {
      if i == 0 { LowDigit(value); } else { HighDigit(tail[i - 1], value, i); }
    }
  }

  lemma {:induction false} NumberTaken(bytes: seq<Byte>, value: nat, rest: seq<Byte>, index: nat)
    requires IsNumber(bytes, value) && index + |bytes| <= 10 && value < Room(index)
    ensures TakeVarint(bytes + rest, index) == Taken(value, rest)
    decreases |bytes|
  {
    FirstDigit(bytes, value);
    assert (bytes + rest)[1..] == bytes[1..] + rest;
    if |bytes| == 1 {
      assert bytes[1..] + rest == rest;
    } else {
      NumberTail(bytes, value);
      NumberTaken(bytes[1..], value / 128, rest, index + 1);
      MoreTaken(bytes + rest, value, rest, index);
    }
  }

  lemma MoreTaken(input: seq<Byte>, value: nat, rest: seq<Byte>, index: nat)
    requires input != [] && index < 9 && input[0] >= 128 && input[0] % 128 == value % 128
    requires TakeVarint(input[1..], index + 1) == Taken(value / 128, rest)
    ensures TakeVarint(input, index) == Taken(value, rest)
  {
  }

  lemma FirstDigit(bytes: seq<Byte>, value: nat)
    requires IsNumber(bytes, value)
    ensures bytes[0] % 128 == value % 128
    ensures |bytes| == 1 ==> bytes[0] == value
  {
    assert Carries(bytes[0], value, 0);
    assert Power128(1) == 128;
  }

  lemma NumberTail(bytes: seq<Byte>, value: nat)
    requires IsNumber(bytes, value) && |bytes| > 1
    ensures IsNumber(bytes[1..], value / 128)
  {
    var tail := bytes[1..];
    forall i | 0 <= i < |tail| ensures Carries(tail[i], value / 128, i) && (tail[i] >= 128 <==> i + 1 < |tail|) {
      assert Carries(bytes[i + 1], value, i + 1);
      NextDigit128(value, i);
      assert tail[i] == bytes[i + 1];
    }
    assert value / 128 < Power128(|tail|);
  }

  lemma VarintReadable(input: seq<Byte>, k: nat, raw: nat)
    requires k <= |input|
    ensures TakeVarint(input, 0) == Taken(raw, input[k..]) <==>
            IsNumber(input[..k], raw) && k <= 10 && raw < TWO_64
  {
    if TakeVarint(input, 0) == Taken(raw, input[k..]) {
      var j := TakenNumber(input, 0);
      TakenIs64Bits(input);
      assert |input[k..]| == |input[j..]|;
    }
    if IsNumber(input[..k], raw) && k <= 10 && raw < TWO_64 {
      RoomIs64Bits();
      NumberTaken(input[..k], raw, input[k..], 0);
      assert input == input[..k] + input[k..];
    }
  }

  lemma FixedReadable(input: seq<Byte>, width: nat, k: nat, raw: nat)
    requires 0 < width && k <= |input|
    ensures TakeFixed(input, width) == Taken(raw, input[k..]) <==>
            IsFixed(input[..k], width, raw) && raw < Power256(width)
  {
    if |input| >= width && k == width {
      LeBounded(input[..width]);
      LeDigits(input[..width]);
      FixedExactly(input[..width], width, raw);
      if raw < Power256(width) { LeRoundTrip(raw, width); }
    }
  }

  lemma WordReadable(s: Scalar, input: seq<Byte>, k: nat, raw: nat)
    requires k <= |input|
    ensures TakeWord(WireType(s), input) == Taken(raw, input[k..]) <==> IsReadable(s, input[..k], raw)
  {
    Widths();
    match s
    case Fixed32 | SFixed32 | Float => FixedReadable(input, 4, k, raw);
    case Fixed64 | SFixed64 | Double => FixedReadable(input, 8, k, raw);
    case _ => VarintReadable(input, k, raw);
  }

  /** What a reader makes of any input: it takes a value exactly if a word that means it comes first. */
  lemma ReadExactly(s: Scalar, input: seq<Byte>, k: nat, n: int)
    requires k <= |input|
    ensures TakeScalar(s, input) == Taken(n, input[k..]) <==>
            exists raw :: IsReadable(s, input[..k], raw) && Means(s, raw, n)
  {
    WordFits(WireType(s), input);
    if TakeScalar(s, input) == Taken(n, input[k..]) {
      var raw := TakeWord(WireType(s), input).value;
      WordReadable(s, input, k, raw);
      MeaningIsFromRaw(s, raw);
    }
    if raw :| IsReadable(s, input[..k], raw) && Means(s, raw, n) {
      WordReadable(s, input, k, raw);
      MeaningIsFromRaw(s, raw);
      OneMeaning(s, raw, n, FromRaw(s, raw));
    }
  }
}
