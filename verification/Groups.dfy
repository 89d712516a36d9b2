/**
 Passing over groups of unknown fields: the loop with a stack of open group numbers does what reading
 the nesting by recursion would, at most 16 deep.
 */
module Groups {
  import opened Bytes
  import opened Varint

  /** Reads a group with this number to its end, `depth` groups being open with it. */
  function ReadGroup(input: seq<Byte>, number: nat, depth: nat): (t: Taken<()>)
    ensures t.Taken? ==> |t.rest| < |input|
    decreases |input|
  {
    match TakeTag(input)
    case Short => Short
    case Taken(tag, rest) =>
      if tag.wire == 4 then (if tag.number == number then Taken((), rest) else Short)
      else if tag.wire == 3 then
        if depth >= 16 then Short
        else
          (match ReadGroup(rest, tag.number, depth + 1)
           case Short => Short
           case Taken(_, after) => ReadGroup(after, number, depth))
      else
        match SkipValue(rest, tag.wire)
        case Short => Short
        case Taken(_, after) => ReadGroup(after, number, depth)
  }

  /** With the groups in `open` around one with this number, the loop reads that one and then goes on with them. */
  lemma {:induction false} StackIsRecursion(input: seq<Byte>, open: seq<nat>, number: nat)
    requires |open| < 16
    ensures SkipGroups(input, open + [number]) ==
            match ReadGroup(input, number, |open| + 1)
            case Short => Short
            case Taken(_, rest) => SkipGroups(rest, open)
    decreases |input|
  {
    var groups := open + [number];
    assert groups[|groups| - 1] == number && groups[..|groups| - 1] == open;
    if TakeTag(input).Taken? {
      var tag, rest := TakeTag(input).value, TakeTag(input).rest;
      if tag.wire == 3 {
        if |groups| < 16 {
          StackIsRecursion(rest, groups, tag.number);
          var inner := ReadGroup(rest, tag.number, |groups| + 1);
          if inner.Taken? { StackIsRecursion(inner.rest, open, number); }
        }
      } else if tag.wire != 4 {
        var value := SkipValue(rest, tag.wire);
        if value.Taken? { StackIsRecursion(value.rest, open, number); }
      }
    }
  }

  /** Passing over a value of an unknown field: a group is read to its end, anything else by its wire type. */
  lemma SkipExactly(input: seq<Byte>, number: nat, wire: nat)
    ensures wire == 3 ==> Skip(input, number, wire).Taken? == ReadGroup(input, number, 1).Taken?
    ensures wire == 3 && Skip(input, number, wire).Taken? ==>
              Skip(input, number, wire).rest == ReadGroup(input, number, 1).rest
    ensures wire == 4 || wire > 5 ==> Skip(input, number, wire).Short?
  {
    assert [] + [number] == [number];
    StackIsRecursion(input, [], number);
  }
}
