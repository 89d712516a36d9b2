/** The in-place side of reassembly: a byte buffer, fragment lengths and a received mask. */
module ReassemblyBuffer {
  import opened Bytes
  import opened Fragments

  /** The byte at `k` once the first `i` of `bytes` are in place at `offset`. */
  function Copied(before: seq<Byte>, offset: nat, bytes: seq<Byte>, i: nat, k: nat): Byte
    requires k < |before| && i <= |bytes|
  {
    if offset <= k < offset + i then bytes[k - offset] else before[k]
  }

  lemma CopiedAll(before: seq<Byte>, after: seq<Byte>, offset: nat, bytes: seq<Byte>)
    requires |after| == |before| && offset + |bytes| <= |before|
    requires forall k :: 0 <= k < |after| ==> after[k] == Copied(before, offset, bytes, |bytes|, k)
    ensures after == before[..offset] + bytes + before[offset + |bytes|..]
  {
  }

  /** Copy `bytes` into the buffer at `offset`, leaving the rest alone. */
  method CopyInto(buffer: array<Byte>, offset: nat, bytes: seq<Byte>)
    requires offset + |bytes| <= buffer.Length
    modifies buffer
    ensures buffer[..] ==
            old(buffer[..offset]) + bytes + old(buffer[offset + |bytes|..])
  {
    ghost var before := buffer[..];
    for i := 0 to |bytes|
      invariant forall k :: 0 <= k < buffer.Length ==> buffer[k] == Copied(before, offset, bytes, i, k)
    {
      buffer[offset + i] := bytes[i];
    }
    assert before[..offset] == old(buffer[..offset]);
    assert before[offset + |bytes|..] == old(buffer[offset + |bytes|..]);
    CopiedAll(before, buffer[..], offset, bytes);
  }

  /** The word whose low `count` bits are ones. */
  function LowBits(count: nat): (bits: set<nat>)
    ensures forall i: nat :: i in bits <==> i < count
  {
    if count == 0 then {} else LowBits(count - 1) + {count - 1}
  }

  ghost predicate Lengths(lengths: seq<Byte>, pieces: map<nat, seq<Byte>>) {
    forall i :: i in pieces ==> i < |lengths| && lengths[i] == |pieces[i]|
  }

  /** The size of the message the fragments make up. */
  method TotalLength(lengths: array<Byte>, count: nat, ghost pieces: map<nat, seq<Byte>>) returns (total: nat)
    requires Lengths(lengths[..], pieces) && Covers(pieces, count)
    ensures total == |Join(pieces, count)|
  {
    total := 0;
    for i := 0 to count
      invariant total == |Join(pieces, i)|
    {
      assert i in pieces && lengths[..][i] == |pieces[i]|;
      total := total + lengths[i];
    }
  }

  /** Writing a fragment into its slot of the buffer adds it to the fragments laid out there. */
  lemma LaidAfterCopy(before: seq<Byte>, after: seq<Byte>, pieces: map<nat, seq<Byte>>, count: nat,
                      index: nat, bytes: seq<Byte>)
    requires Laid(before, pieces, count)
    requires index < count && index !in pieces && 1 <= |bytes| <= 6
    requires index + 1 < count ==> |bytes| == 6
    requires index * 6 + |bytes| <= |before|
    requires after == before[..index * 6] + bytes + before[index * 6 + |bytes|..]
    ensures Laid(after, pieces[index := bytes], count)
  {
    forall i | i in pieces[index := bytes]
      ensures var piece := pieces[index := bytes][i];
              i * 6 + |piece| <= |after| && piece == after[i * 6..i * 6 + |piece|]
    {
      if i != index {
        var piece := pieces[i];
        assert piece == before[i * 6..i * 6 + |piece|];
        assert piece == after[i * 6..i * 6 + |piece|];
      }
    }
  }
}
