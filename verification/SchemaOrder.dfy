/**
 How the generator orders message declarations and computes their maximum wire sizes: it
 sweeps over what is left, taking every message whose message fields are all done, and gives
 up when a sweep takes nothing.
 */
module SchemaOrder {
  import opened Bytes
  import opened Varint
  import opened Scalars
  import opened Messages
  import Decoding

  /** The type of a field as declared, naming other messages. */
  datatype Declared = Number(scalar: Scalar) | Characters(maxSize: nat) | Octets(maxSize: nat) | Refers(name: string)

  datatype Member = Member(number: nat, declared: Declared, rule: Rule)

  /** A message declaration, fields in number order. */
  datatype Message = Message(name: string, members: seq<Member>)

  datatype Resolved = Resolved(ordered: seq<Message>, sizes: map<string, nat>)

  function Names(messages: seq<Message>): set<string> {
    set m | m in messages :: m.name
  }

  ghost predicate Distinct(messages: seq<Message>) {
    forall i, j :: 0 <= i < j < |messages| ==> messages[i].name != messages[j].name
  }

  function Dependencies(m: Message): set<string> {
    set f | f in m.members && f.declared.Refers? :: f.declared.name
  }

  /** Field numbers as the language allows them. */
  ghost predicate Legal(m: Message) {
    && (forall i :: 0 <= i < |m.members| ==> 1 <= m.members[i].number <= MAX_FIELD_NUMBER)
    && (forall i, j :: 0 <= i < j < |m.members| ==> m.members[i].number < m.members[j].number)
  }

  /** Messages none of which can ever be resolved: each needs another of them, or one not declared. */
  ghost predicate Stuck(messages: seq<Message>, names: set<string>) {
    && names != {} && names <= Names(messages)
    && forall m :: m in messages && m.name in names ==>
         exists d :: d in Dependencies(m) && (d in names || d !in Names(messages))
  }

  /* ---------------------------------------------- the types a schema stands for */

  ghost predicate Ordered(messages: seq<Message>) {
    messages == [] ||
    var n := |messages| - 1;
    && Ordered(messages[..n])
    && messages[n].name !in Names(messages[..n])
    && Dependencies(messages[n]) <= Names(messages[..n])
  }

  function UnfoldMember(types: map<string, seq<Field>>, f: Member): Field
    requires f.declared.Refers? ==> f.declared.name in types
  {
    match f.declared
    case Number(s) => Field(f.number, Word(s), f.rule)
    case Characters(maxSize) => Field(f.number, Text(maxSize), f.rule)
    case Octets(maxSize) => Field(f.number, Blob(maxSize), f.rule)
    case Refers(name) => Field(f.number, Nested(types[name]), f.rule)
  }

  function Unfold(types: map<string, seq<Field>>, members: seq<Member>): (fields: seq<Field>)
    requires forall f :: f in members && f.declared.Refers? ==> f.declared.name in types
    ensures |fields| == |members|
    ensures forall i :: 0 <= i < |members| ==> fields[i] == UnfoldMember(types, members[i])
  {
    if members == [] then [] else [UnfoldMember(types, members[0])] + Unfold(types, members[1..])
  }

  lemma NamesSplit(messages: seq<Message>)
    requires messages != []
    ensures Names(messages) == Names(messages[..|messages| - 1]) + {messages[|messages| - 1].name}
  {
    var n := |messages| - 1;
    assert messages == messages[..n] + [messages[n]];
  }

  /** The message types, with the types of their fields in place. */
  ghost function Types(messages: seq<Message>): (types: map<string, seq<Field>>)
    requires Ordered(messages)
    ensures types.Keys == Names(messages)
  {
    if messages == [] then map[]
    else
      var n := |messages| - 1;
      var types := Types(messages[..n]);
      NamesSplit(messages);
      DependenciesKnown(messages[n], types.Keys);
      types[messages[n].name := Unfold(types, messages[n].members)]
  }

  lemma DependenciesKnown(m: Message, known: set<string>)
    requires Dependencies(m) <= known
    ensures forall f :: f in m.members && f.declared.Refers? ==> f.declared.name in known
  {
    forall f | f in m.members && f.declared.Refers? ensures f.declared.name in known {
      assert f.declared.name in Dependencies(m);
    }
  }

  /** Every type an accepted schema stands for is well formed, so the codec theorems apply to it. */
  lemma {:induction false} TypesWellFormed(messages: seq<Message>)
    requires Ordered(messages) && forall m :: m in messages ==> Legal(m)
    ensures forall name :: name in Types(messages) ==> WellFormed(Types(messages)[name])
  {
    if messages != [] {
      var n := |messages| - 1;
      TypesWellFormed(messages[..n]);
      DependenciesKnown(messages[n], Names(messages[..n]));
      UnfoldWellFormed(Types(messages[..n]), messages[n]);
    }
  }

  lemma MemberWellFormed(types: map<string, seq<Field>>, f: Member)
    requires f.declared.Refers? ==> f.declared.name in types && WellFormed(types[f.declared.name])
    ensures FieldWellFormed(UnfoldMember(types, f))
  {
  }

  lemma UnfoldWellFormed(types: map<string, seq<Field>>, m: Message)
    requires Legal(m) && forall name :: name in types ==> WellFormed(types[name])
    requires forall f :: f in m.members && f.declared.Refers? ==> f.declared.name in types
    ensures WellFormed(Unfold(types, m.members))
  {
    var fields := Unfold(types, m.members);
    forall i | 0 <= i < |fields| ensures FieldWellFormed(fields[i]) && fields[i].number == m.members[i].number {
      assert m.members[i] in m.members;
      MemberWellFormed(types, m.members[i]);
    }
  }

  /* ------------------------------------------------------ maximum wire sizes */

  /** The sizes recorded so far are those of the types. */
  ghost predicate Sized(sizes: map<string, nat>, types: map<string, seq<Field>>) {
    sizes.Keys == types.Keys && forall name :: name in sizes ==> sizes[name] == MaxWireSize(types[name])
  }

  /** The generator's sum, over a message whose dependencies have been sized. */
  method MessageMaxWireSize(members: seq<Member>, sizes: map<string, nat>, ghost types: map<string, seq<Field>>)
    returns (size: nat)
    requires Sized(sizes, types)
    requires forall f :: f in members && f.declared.Refers? ==> f.declared.name in types
    ensures size == MaxWireSize(Unfold(types, members))
  {
    var total := 0;
    assert members[0..] == members;
    for i := 0 to |members|
      invariant forall f :: f in members[i..] && f.declared.Refers? ==> f.declared.name in types
      invariant total + SumMax(Unfold(types, members[i..])) == SumMax(Unfold(types, members))
    {
      assert members[i] in members[i..] && members[i..][1..] == members[i + 1..];
      assert Unfold(types, members[i..])[1..] == Unfold(types, members[i + 1..]);
      var one := MemberMaxWireSize(members[i], sizes, types);
      total := total + one;
    }
    size := if total >= 1 then total else 1;
  }

  method MemberMaxWireSize(f: Member, sizes: map<string, nat>, ghost types: map<string, seq<Field>>)
    returns (size: nat)
    requires Sized(sizes, types) && (f.declared.Refers? ==> f.declared.name in types)
    ensures size == FieldMax(UnfoldMember(types, f))
  {
    if f.declared.Number? {
      size := NumberMaxWireSize(f);
      return;
    }
    var tag := VarintSize(8 * f.number + 2);
    var payload := if f.declared.Refers? then sizes[f.declared.name] else f.declared.maxSize;
    var prefix := VarintSize(payload);
    var count := if f.rule.Repeated? then f.rule.maxCount else 1;
    size := count * (tag + prefix + payload);
  }

  method NumberMaxWireSize(f: Member) returns (size: nat)
    requires f.declared.Number?
    ensures size == FieldMax(Field(f.number, Word(f.declared.scalar), f.rule))
  {
    var tag := VarintSize(8 * f.number + WireType(f.declared.scalar));
    var item := MaxSize(f.declared.scalar);
    if !f.rule.Repeated? { return tag + item; }
    if !f.rule.packed { return f.rule.maxCount * (tag + item); }
    var payload := f.rule.maxCount * item;
    var prefix := VarintSize(payload);
    return tag + prefix + payload;
  }

  /* ---------------------------------------------------------------- ordering */

  /** What the generator has done so far: a dependency order with the sizes of its types. */
  ghost predicate Sound(r: Resolved) {
    Ordered(r.ordered) && Sized(r.sizes, Types(r.ordered))
  }

  ghost predicate HasMissing(m: Message, done: set<string>) {
    exists d :: d in Dependencies(m) && d !in done
  }

  /** Takes a message whose dependencies are all done. */
  method Emit(r: Resolved, m: Message) returns (next: Resolved)
    requires Sound(r) && m.name !in Names(r.ordered) && Dependencies(m) <= Names(r.ordered)
    ensures Sound(next) && next.ordered == r.ordered + [m]
  {
    ghost var types := Types(r.ordered);
    DependenciesKnown(m, types.Keys);
    var size := MessageMaxWireSize(m.members, r.sizes, types);
    next := Resolved(r.ordered + [m], r.sizes[m.name := size]);
    assert next.ordered[..|r.ordered|] == r.ordered;
    assert Types(next.ordered) == types[m.name := Unfold(types, m.members)];
  }

  /** After `i` messages of a pass, `kept` of them are still waiting. */
  ghost predicate Swept(pending: seq<Message>, i: nat, r: Resolved, kept: seq<Message>, next: Resolved) {
    && i <= |pending| && |kept| <= i && Distinct(kept)
    && (forall m :: m in kept ==> m in pending[..i])
    && (forall m :: m in kept || m in pending[i..] ==> m.name !in Names(next.ordered))
    && (forall m :: m in pending[..i] ==> m in kept || m in next.ordered)
    && (forall m :: m in next.ordered ==> m in r.ordered || m in pending[..i])
    && r.ordered <= next.ordered
    && (|kept| == i ==> kept == pending[..i] && next == r)
    && (|kept| == i ==> forall m :: m in pending[..i] ==> HasMissing(m, Names(r.ordered)))
  }

  lemma Distinguish(messages: seq<Message>, i: nat)
    requires Distinct(messages) && i < |messages|
    ensures forall m :: m in messages[..i] || m in messages[i + 1..] ==> m.name != messages[i].name
  {
  }

  lemma SweptEmit(pending: seq<Message>, i: nat, r: Resolved, kept: seq<Message>, next: Resolved, after: Resolved)
    requires Swept(pending, i, r, kept, next) && i < |pending| && Distinct(pending)
    requires after.ordered == next.ordered + [pending[i]]
    ensures Swept(pending, i + 1, r, kept, after)
  {
    Distinguish(pending, i);
    assert pending[i..] == [pending[i]] + pending[i + 1..];
    assert pending[..i + 1] == pending[..i] + [pending[i]];
  }

  lemma SweptKeep(pending: seq<Message>, i: nat, r: Resolved, kept: seq<Message>, next: Resolved)
    requires Swept(pending, i, r, kept, next) && i < |pending| && Distinct(pending)
    requires HasMissing(pending[i], Names(next.ordered))
    ensures Swept(pending, i + 1, r, kept + [pending[i]], next)
  {
    Distinguish(pending, i);
    assert pending[i..] == [pending[i]] + pending[i + 1..];
    assert pending[..i + 1] == pending[..i] + [pending[i]];
  }

  /** One pass over the messages that are left. */
  method Sweep(pending: seq<Message>, r: Resolved) returns (kept: seq<Message>, next: Resolved)
    requires Sound(r) && Distinct(pending) && forall m :: m in pending ==> m.name !in Names(r.ordered)
    ensures Sound(next) && Swept(pending, |pending|, r, kept, next)
  {
    kept, next := [], r;
    for i := 0 to |pending|
      invariant Sound(next) && Swept(pending, i, r, kept, next)
    {
      var m := pending[i];
      assert m in pending[i..];
      if Dependencies(m) <= Names(next.ordered) {
        var after := Emit(next, m);
        SweptEmit(pending, i, r, kept, next, after);
        next := after;
      } else {
        SweptKeep(pending, i, r, kept, next);
        kept := kept + [m];
      }
    }
  }

  /** When a pass takes nothing, what is left can never be resolved. */
  lemma NoProgress(messages: seq<Message>, pending: seq<Message>, ordered: seq<Message>)
    requires pending != [] && Distinct(messages)
    requires forall m :: m in messages <==> m in pending || m in ordered
    requires forall m :: m in pending ==> HasMissing(m, Names(ordered))
    ensures Stuck(messages, Names(pending))
  {
    assert pending[0].name in Names(pending);
    forall m | m in messages && m.name in Names(pending)
      ensures exists d :: d in Dependencies(m) && (d in Names(pending) || d !in Names(messages))
    {
      var waiting :| waiting in pending && waiting.name == m.name;
      assert waiting == m;
      var d :| d in Dependencies(m) && d !in Names(ordered);
      assert d in Names(messages) ==> d in Names(pending);
    }
  }

  lemma {:induction false} OrderedAvoids(messages: seq<Message>, ordered: seq<Message>, names: set<string>)
    requires Ordered(ordered) && Stuck(messages, names)
    requires forall m :: m in ordered ==> m in messages
    ensures Names(ordered) !! names
  {
    if ordered != [] {
      var n := |ordered| - 1;
      OrderedAvoids(messages, ordered[..n], names);
      NamesSplit(ordered);
      assert Names(ordered[..n]) <= Names(messages);
    }
  }

  /** A dependency order of all messages leaves no set of them stuck. */
  lemma NeverStuck(messages: seq<Message>, ordered: seq<Message>, names: set<string>)
    requires Ordered(ordered) && forall m :: m in messages <==> m in ordered
    ensures !Stuck(messages, names)
  {
    assert Names(messages) == Names(ordered);
    if Stuck(messages, names) { OrderedAvoids(messages, ordered, names); }
  }

  ghost predicate Remaining(messages: seq<Message>, pending: seq<Message>, ordered: seq<Message>) {
    && Distinct(pending)
    && (forall m :: m in pending ==> m.name !in Names(ordered))
    && (forall m :: m in messages <==> m in pending || m in ordered)
  }

  lemma SweptSome(messages: seq<Message>, pending: seq<Message>, r: Resolved, kept: seq<Message>, next: Resolved)
    requires Remaining(messages, pending, r.ordered) && Swept(pending, |pending|, r, kept, next)
    ensures Remaining(messages, kept, next.ordered)
  {
    assert pending[..|pending|] == pending;
  }

  lemma SweptNothing(messages: seq<Message>, pending: seq<Message>, r: Resolved, kept: seq<Message>, next: Resolved)
    requires Remaining(messages, pending, r.ordered) && Swept(pending, |pending|, r, kept, next)
    requires |kept| == |pending| && pending != [] && Distinct(messages)
    ensures Stuck(messages, Names(pending))
  {
    assert pending[..|pending|] == pending;
    NoProgress(messages, pending, r.ordered);
  }

  /**
   The generator accepts a schema exactly if no set of messages is stuck, that is recursive or
   unresolved; then every message is in the order after its dependencies, with the maximum
   wire size of the type it stands for.
   */
  method Resolve(messages: seq<Message>) returns (r: Option<Resolved>)
    requires Distinct(messages)
    ensures r.None? <==> exists names :: Stuck(messages, names)
    ensures r.Some? ==> Sound(r.value) && forall m :: m in messages <==> m in r.value.ordered
  {
    var pending, done := messages, Resolved([], map[]);
    while pending != []
      invariant Sound(done) && Remaining(messages, pending, done.ordered)
      decreases |pending|
    {
      var kept, next := Sweep(pending, done);
      if |kept| == |pending| {
        SweptNothing(messages, pending, done, kept, next);
        return None;
      }
      SweptSome(messages, pending, done, kept, next);
      pending, done := kept, next;
    }
    forall names ensures !Stuck(messages, names) {
      NeverStuck(messages, done.ordered, names);
    }
    return Some(done);
  }

  /**
   For every message of every accepted schema: an in-bounds value encodes into the size the
   generator recorded for it, and decodes to itself.
   */
  lemma AcceptedSchema(r: Resolved, name: string, slots: seq<seq<Value>>)
    requires Sound(r) && (forall m :: m in r.ordered ==> Legal(m))
    requires name in r.sizes && r.sizes[name] <= U64_MAX
    requires Decoding.Good(Types(r.ordered)[name], slots)
    ensures var fields := Types(r.ordered)[name];
            && |Wire(fields, slots)| <= r.sizes[name]
            && Decoding.Decode(fields, Wire(fields, slots)) == Decoding.Done(slots)
  {
    var fields := Types(r.ordered)[name];
    TypesWellFormed(r.ordered);
    WireFits(fields, slots);
    Decoding.RoundTrip(fields, slots);
  }
}
