/** Splitting a payload into six-byte fragments and joining fragments again. */
module Fragments {
  import opened Bytes

  const MAXIMUM_FRAGMENTS := 16

  function Count(payload: seq<Byte>): nat {
    (|payload| + 5) / 6
  }

  function Piece(payload: seq<Byte>, index: nat): (piece: seq<Byte>)
    requires index < Count(payload)
    ensures 1 <= |piece| <= 6
    ensures index + 1 < Count(payload) ==> |piece| == 6
  {
    var offset := index * 6;
    var length := if |payload| - offset < 6 then |payload| - offset else 6;
    payload[offset..offset + length]
  }

  ghost predicate Covers(pieces: map<nat, seq<Byte>>, count: nat) {
    forall i :: 0 <= i < count ==> i in pieces
  }

  ghost function Join(pieces: map<nat, seq<Byte>>, count: nat): seq<Byte>
    requires Covers(pieces, count)
  {
    if count == 0 then [] else Join(pieces, count - 1) + pieces[count - 1]
  }

  /** Reading a fragment out of the buffer that holds the payload. */
  lemma PieceOfBuffer(buffer: seq<Byte>, size: nat, index: nat)
    requires size <= |buffer| && index < Count(buffer[..size])
    ensures var length := if size - index * 6 < 6 then size - index * 6 else 6;
            && 0 < length && index * 6 + length <= size
            && buffer[index * 6..index * 6 + length] == Piece(buffer[..size], index)
  {
  }

  ghost predicate PiecesOf(pieces: map<nat, seq<Byte>>, payload: seq<Byte>) {
    forall i :: i in pieces ==> i < Count(payload) && pieces[i] == Piece(payload, i)
  }

  /** A complete set of fragments of one payload joins to that payload, byte for byte. */
  lemma {:induction false} JoinIsPayload(payload: seq<Byte>, pieces: map<nat, seq<Byte>>)
    requires Covers(pieces, Count(payload))
    requires PiecesOf(pieces, payload)
    ensures Join(pieces, Count(payload)) == payload
  {
    if payload != [] {
      var n := Count(payload);
      JoinPrefix(payload, pieces, n - 1);
      assert pieces[n - 1] == Piece(payload, n - 1);
    }
  }

  lemma {:induction false} JoinPrefix(payload: seq<Byte>, pieces: map<nat, seq<Byte>>, n: nat)
    requires n < Count(payload)
    requires Covers(pieces, Count(payload))
    requires PiecesOf(pieces, payload)
    ensures Join(pieces, n) == payload[..n * 6]
  {
    if n > 0 {
      JoinPrefix(payload, pieces, n - 1);
      assert pieces[n - 1] == Piece(payload, n - 1);
    }
  }

  /** The fragments lie in `buffer` at multiples of six, each but the last being full. */
  ghost predicate Laid(buffer: seq<Byte>, pieces: map<nat, seq<Byte>>, count: nat) {
    forall i :: i in pieces ==>
      && i < count
      && 1 <= |pieces[i]| <= 6
      && (i + 1 < count ==> |pieces[i]| == 6)
      && i * 6 + |pieces[i]| <= |buffer|
      && pieces[i] == buffer[i * 6..i * 6 + |pieces[i]|]
  }

  /** What a reassembly buffer holds once every fragment is in is the joined message. */
  lemma {:induction false} JoinBuffer(buffer: seq<Byte>, pieces: map<nat, seq<Byte>>, count: nat, n: nat)
    requires n <= count
    requires Covers(pieces, count)
    requires Laid(buffer, pieces, count)
    ensures |Join(pieces, n)| <= |buffer|
    ensures Join(pieces, n) == buffer[..|Join(pieces, n)|]
    ensures n < count ==> |Join(pieces, n)| == n * 6
  {
    if n > 0 {
      JoinBuffer(buffer, pieces, count, n - 1);
      assert n - 1 in pieces;
    }
  }
}
