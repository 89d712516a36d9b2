/** Consistent overhead byte stuffing: an encoding without zero bytes. */
module Cobs {
  import opened Bytes

  const FULL_RUN := 254

  /**
   The encoding of `input`, given the non-zero bytes `run` already collected for the current
   block. A block is a code byte, one more than the number of bytes that follow.
   */
  function EncodeFrom(run: seq<Byte>, input: seq<Byte>): seq<Byte>
    requires |run| < FULL_RUN
    decreases |input|
  {
    if input == [] then [|run| + 1] + run
    else if input[0] == 0 then [|run| + 1] + run + EncodeFrom([], input[1..])
    else if |run| + 1 == FULL_RUN then
      [FULL_RUN + 1] + run + [input[0]] + EncodeFrom([], input[1..])
    else EncodeFrom(run + [input[0]], input[1..])
  }

  function Encoding(input: seq<Byte>): seq<Byte> {
    EncodeFrom([], input)
  }

  /** How many blocks are closed because they are full, given `run` bytes in the open one. */
  function FullRuns(run: nat, input: seq<Byte>): nat
    requires run < FULL_RUN
    decreases |input|
  {
    if input == [] then 0
    else if input[0] == 0 then FullRuns(0, input[1..])
    else if run + 1 == FULL_RUN then 1 + FullRuns(0, input[1..])
    else FullRuns(run + 1, input[1..])
  }

  lemma {:induction false} LengthFrom(run: seq<Byte>, input: seq<Byte>)
    requires |run| < FULL_RUN
    ensures |EncodeFrom(run, input)| == |run| + |input| + 1 + FullRuns(|run|, input)
    ensures FULL_RUN * FullRuns(|run|, input) <= |run| + |input|
    decreases |input|
  {
    if input != [] {
      if input[0] == 0 || |run| + 1 == FULL_RUN { LengthFrom([], input[1..]); }
      else { LengthFrom(run + [input[0]], input[1..]); }
    }
  }

  /** Exact length of an encoding, and the bound the packet buffers are sized by. */
  lemma EncodedLength(input: seq<Byte>)
    ensures |Encoding(input)| == |input| + 1 + FullRuns(0, input)
    ensures |Encoding(input)| <= |input| + |input| / FULL_RUN + 1
  {
    LengthFrom([], input);
  }

  /** No zero byte appears in an encoding. */
  lemma {:induction false} NoZeroFrom(run: seq<Byte>, input: seq<Byte>)
    requires |run| < FULL_RUN && 0 !in run
    ensures 0 !in EncodeFrom(run, input)
    decreases |input|
  {
    if input != [] {
      if input[0] == 0 || |run| + 1 == FULL_RUN { NoZeroFrom([], input[1..]); }
      else { NoZeroFrom(run + [input[0]], input[1..]); }
    }
  }

  /** Taking one byte: what is settled grows, what is still to be encoded shrinks. */
  lemma EncodeStep(settled: seq<Byte>, run: seq<Byte>, value: Byte, rest: seq<Byte>)
    requires |run| < FULL_RUN
    ensures var whole := settled + EncodeFrom(run, [value] + rest);
            if value == 0 then
              && whole == settled + [|run| + 1] + run + EncodeFrom([], rest)
              && |whole| >= |settled| + |run| + 2
            else if |run| + 1 == FULL_RUN then
              && whole == settled + [FULL_RUN + 1] + (run + [value]) + EncodeFrom([], rest)
              && |whole| >= |settled| + |run| + 3
            else
              && whole == settled + EncodeFrom(run + [value], rest)
              && |whole| >= |settled| + |run| + 2
  {
    var input := [value] + rest;
    assert input[0] == value && input[1..] == rest;
    LengthFrom([], rest);
    if value == 0 {
      Grouped(settled, [|run| + 1], run, EncodeFrom([], rest));
    } else if |run| + 1 == FULL_RUN {
      assert [FULL_RUN + 1] + run + [value] == [FULL_RUN + 1] + (run + [value]);
      Grouped(settled, [FULL_RUN + 1], run + [value], EncodeFrom([], rest));
    } else {
      LengthFrom(run + [value], rest);
    }
  }

  lemma Grouped(a: seq<Byte>, b: seq<Byte>, c: seq<Byte>, d: seq<Byte>)
    ensures a + (b + c + d) == a + b + c + d
  {
  }

  /** Patch the code byte of the open block. */
  method CloseBlock(output: array<Byte>, codeIndex: nat, outputIndex: nat)
    requires codeIndex < outputIndex <= output.Length && outputIndex - codeIndex <= 255
    modifies output
    ensures output[..outputIndex] ==
            old(output[..codeIndex]) + [outputIndex - codeIndex] + old(output[codeIndex + 1..outputIndex])
  {
    output[codeIndex] := outputIndex - codeIndex;
  }

  /** Add a byte to the open block. */
  method Append(output: array<Byte>, codeIndex: nat, outputIndex: nat, value: Byte)
    requires codeIndex < outputIndex < output.Length
    modifies output
    ensures output[..codeIndex] == old(output[..codeIndex])
    ensures output[codeIndex + 1..outputIndex + 1] == old(output[codeIndex + 1..outputIndex]) + [value]
  {
    output[outputIndex] := value;
  }

  /** The output holds the closed blocks `settled`, room for a code byte, and the open block's bytes. */
  ghost predicate Holds(output: seq<Byte>, codeIndex: nat, outputIndex: nat, settled: seq<Byte>, run: seq<Byte>) {
    && codeIndex == |settled| && outputIndex == codeIndex + 1 + |run| <= |output|
    && |run| < FULL_RUN
    && output[..codeIndex] == settled && output[codeIndex + 1..outputIndex] == run
  }

  /** One byte of input: it joins the open block, which is closed by a zero byte or when it is full. */
  method TakeByte(output: array<Byte>, limit: nat, codeIndex: nat, outputIndex: nat, value: Byte,
                  ghost settled: seq<Byte>, ghost run: seq<Byte>, ghost rest: seq<Byte>)
    returns (fits: bool, code: nat, next: nat, ghost closed: seq<Byte>, ghost open: seq<Byte>)
    requires outputIndex <= limit <= output.Length
    requires Holds(output[..], codeIndex, outputIndex, settled, run)
    modifies output
    ensures fits ==> next <= limit && Holds(output[..], code, next, closed, open)
    ensures fits ==> closed + EncodeFrom(open, rest) == settled + EncodeFrom(run, [value] + rest)
    ensures !fits ==> |settled + EncodeFrom(run, [value] + rest)| > limit
  {
    EncodeStep(settled, run, value, rest);
    closed, open := settled, run;
    code, next := codeIndex, outputIndex;
    if value != 0 {
      if next >= limit {
        return false, code, next, closed, open;
      }
      Append(output, code, next, value);
      next := next + 1;
      open := open + [value];
    }
    if value == 0 || next - code == 255 {
      CloseBlock(output, code, next);
      closed := closed + [|open| + 1] + open;
      open := [];
      code := next;
      next := next + 1;
      if next > limit {
        return false, code, next, closed, open;
      }
    }
    return true, code, next, closed, open;
  }

  /** CobsEncode: fails exactly when the first `limit` bytes are too few for the encoding. */
  method CobsEncode(input: seq<Byte>, output: array<Byte>, limit: nat)
    returns (status: Status, written: nat)
    requires limit <= output.Length
    modifies output
    ensures status == Ok <==> |Encoding(input)| <= limit
    ensures status == Ok ==> written == |Encoding(input)| && output[..written] == Encoding(input)
    ensures status != Ok ==> status == CapacityExceeded && written == 0
  {
    LengthFrom([], input);
    if limit == 0 {
      return CapacityExceeded, 0;
    }
    var codeIndex: nat, outputIndex: nat := 0, 1;
    ghost var settled: seq<Byte>, run: seq<Byte> := [], [];
    for i := 0 to |input|
      invariant outputIndex <= limit && Holds(output[..], codeIndex, outputIndex, settled, run)
      invariant settled + EncodeFrom(run, input[i..]) == Encoding(input)
    {
      assert input[i..] == [input[i]] + input[i + 1..];
      var fits;
      fits, codeIndex, outputIndex, settled, run :=
        TakeByte(output, limit, codeIndex, outputIndex, input[i], settled, run, input[i + 1..]);
      if !fits {
        return CapacityExceeded, 0;
      }
    }
    assert input[|input|..] == [];
    CloseBlock(output, codeIndex, outputIndex);
    assert settled + ([|run| + 1] + run) == settled + [|run| + 1] + run;
    return Ok, outputIndex;
  }

  /* ---------------------------------------------------------------- decoding */

  /** A verdict, with the bytes produced up to then. */
  datatype Decoded = Decoded(status: Status, bytes: seq<Byte>)

  /** Copy the bytes of one block; none may be zero and all must fit. */
  function DecodeBlock(block: seq<Byte>, out: seq<Byte>, limit: nat): Decoded {
    if block == [] then Decoded(Ok, out)
    else if |out| == limit then Decoded(CapacityExceeded, out)
    else if block[0] == 0 then Decoded(ProtocolError, out)
    else DecodeBlock(block[1..], out + [block[0]], limit)
  }

  function DecodeFrom(input: seq<Byte>, out: seq<Byte>, limit: nat): Decoded {
    if input == [] then Decoded(Ok, out)
    else
      var code := input[0];
      if code == 0 || code > |input| then Decoded(ProtocolError, out)
      else
        var block := DecodeBlock(input[1..code], out, limit);
        var rest := input[code..];
        if block.status != Ok then block
        else if code != 255 && rest != [] then
          if |block.bytes| == limit then Decoded(CapacityExceeded, block.bytes)
          else DecodeFrom(rest, block.bytes + [0], limit)
        else DecodeFrom(rest, block.bytes, limit)
  }

  function Decoding(input: seq<Byte>, limit: nat): Decoded {
    if input == [] then Decoded(ProtocolError, []) else DecodeFrom(input, [], limit)
  }

  lemma {:induction false} CopyBlock(block: seq<Byte>, out: seq<Byte>, limit: nat)
    requires 0 !in block && |out| + |block| <= limit
    ensures DecodeBlock(block, out, limit) == Decoded(Ok, out + block)
    decreases block
  {
    if block == [] {
      assert out + block == out;
    } else {
      CopyBlock(block[1..], out + [block[0]], limit);
      assert out + [block[0]] + block[1..] == out + block;
    }
  }

  lemma DecodeOneBlock(block: seq<Byte>, rest: seq<Byte>, out: seq<Byte>, limit: nat)
    requires |block| <= FULL_RUN && 0 !in block && |out| + |block| <= limit
    ensures DecodeFrom([|block| + 1] + block + rest, out, limit) ==
            if |block| < FULL_RUN && rest != [] then
              if |out| + |block| == limit then Decoded(CapacityExceeded, out + block)
              else DecodeFrom(rest, out + block + [0], limit)
            else DecodeFrom(rest, out + block, limit)
  {
    var encoded := [|block| + 1] + block + rest;
    assert encoded[1..|block| + 1] == block && encoded[|block| + 1..] == rest;
    CopyBlock(block, out, limit);
  }

  /** Decoding what is encoded appends the pending run and the input to the output so far. */
  lemma {:induction false} DecodeEncoded(run: seq<Byte>, input: seq<Byte>, out: seq<Byte>, limit: nat)
    requires |run| < FULL_RUN && 0 !in run
    requires |out| + |run| + |input| <= limit
    ensures DecodeFrom(EncodeFrom(run, input), out, limit) == Decoded(Ok, out + run + input)
    decreases |input|
  {
    if input == [] {
      assert EncodeFrom(run, input) == [|run| + 1] + run + [];
      DecodeOneBlock(run, [], out, limit);
      assert out + run + input == out + run;
    } else {
      var value, rest := input[0], input[1..];
      Rejoin(out, run, value, rest, input);
      LengthFrom([], rest);
      EncodeFirst(run, input);
      if value == 0 {
        DecodeOneBlock(run, EncodeFrom([], rest), out, limit);
        DecodeEncoded([], rest, out + run + [0], limit);
      } else if |run| + 1 == FULL_RUN {
        DecodeOneBlock(run + [value], EncodeFrom([], rest), out, limit);
        DecodeEncoded([], rest, out + (run + [value]), limit);
      } else {
        DecodeEncoded(run + [value], rest, out, limit);
      }
    }
  }

  lemma Rejoin(out: seq<Byte>, run: seq<Byte>, value: Byte, rest: seq<Byte>, input: seq<Byte>)
    requires input == [value] + rest
    ensures out + run + [value] + [] + rest == out + run + input
    ensures out + (run + [value]) + [] + rest == out + run + input
    ensures out + (run + [value]) + rest == out + run + input
  {
  }

  /** The encoding, by its first byte. */
  lemma EncodeFirst(run: seq<Byte>, input: seq<Byte>)
    requires |run| < FULL_RUN && input != []
    ensures EncodeFrom(run, input) ==
            if input[0] == 0 then [|run| + 1] + run + EncodeFrom([], input[1..])
            else if |run| + 1 == FULL_RUN then
              [|run + [input[0]]| + 1] + (run + [input[0]]) + EncodeFrom([], input[1..])
            else EncodeFrom(run + [input[0]], input[1..])
  {
    assert [FULL_RUN + 1] + run + [input[0]] == [FULL_RUN + 1] + (run + [input[0]]);
  }

  /** Round trip, with no zero byte on the way. */
  lemma RoundTrip(input: seq<Byte>, limit: nat)
    requires |input| <= limit
    ensures Decoding(Encoding(input), limit) == Decoded(Ok, input)
    ensures 0 !in Encoding(input)
  {
    LengthFrom([], input);
    NoZeroFrom([], input);
    DecodeEncoded([], input, [], limit);
    assert [] + [] + input == input;
  }

  /** CobsDecode: verdict, length and bytes are those of `Decoding`, on every input. */
  method CobsDecode(input: seq<Byte>, output: array<Byte>) returns (status: Status, written: nat)
    modifies output
    ensures written <= output.Length
    ensures Decoded(status, output[..written]) == Decoding(input, output.Length)
  {
    written := 0;
    if input == [] {
      return ProtocolError, 0;
    }
    var index := 0;
    while index < |input|
      invariant index <= |input| && written <= output.Length
      invariant DecodeFrom(input[index..], output[..written], output.Length) ==
                Decoding(input, output.Length)
    {
      var code := input[index];
      if code == 0 || index + code > |input| {
        return ProtocolError, written;
      }
      ghost var out: seq<Byte> := output[..written];
      FirstBlock(input[index..], out, output.Length);
      assert input[index..][1..code] == input[index + 1..index + code];
      assert input[index..][code..] == input[index + code..];
      status, written := CopyIn(input[index + 1..index + code], output, written);
      if status != Ok {
        return;
      }
      index := index + code;
      if code != 255 && index < |input| {
        if written == output.Length {
          return CapacityExceeded, written;
        }
        output[written] := 0;
        assert output[..written + 1] == output[..written] + [0];
        written := written + 1;
      }
    }
    return Ok, written;
  }

  /** What decoding does with the first block of a non-empty input. */
  lemma FirstBlock(input: seq<Byte>, out: seq<Byte>, limit: nat)
    requires input != [] && 0 < input[0] <= |input|
    ensures var block, rest := DecodeBlock(input[1..input[0]], out, limit), input[input[0]..];
            DecodeFrom(input, out, limit) ==
            if block.status != Ok then block
            else if input[0] != 255 && rest != [] then
              if |block.bytes| == limit then Decoded(CapacityExceeded, block.bytes)
              else DecodeFrom(rest, block.bytes + [0], limit)
            else DecodeFrom(rest, block.bytes, limit)
  {
  }

  /** Copy the bytes of one block behind what is there, up to a zero byte or the end of the output. */
  method CopyIn(block: seq<Byte>, output: array<Byte>, from: nat) returns (status: Status, written: nat)
    requires from <= output.Length
    modifies output
    ensures written <= output.Length
    ensures Decoded(status, output[..written]) == DecodeBlock(block, old(output[..from]), output.Length)
  {
    written := from;
    for offset := 0 to |block|
      invariant written <= output.Length
      invariant DecodeBlock(block[offset..], output[..written], output.Length) ==
                DecodeBlock(block, old(output[..from]), output.Length)
    {
      if written == output.Length || block[offset] == 0 {
        return if written == output.Length then CapacityExceeded else ProtocolError, written;
      }
      output[written] := block[offset];
      assert output[..written + 1] == output[..written] + [block[offset]];
      assert block[offset..][1..] == block[offset + 1..];
      written := written + 1;
    }
    return Ok, written;
  }

  /* --------------------------------------------------------------- exactness */

  /**
   The rule: the bytes up to the next zero, 254 at most, follow a byte that is one more than their
   number; a zero is left out after them unless there are 254. What ends the input ends as if a
   zero came.
   */
  ghost predicate IsStuffed(bytes: seq<Byte>, input: seq<Byte>)
    decreases |input|, |bytes|, 1
  {
    exists n :: 0 <= n <= FULL_RUN && n <= |input| && Follows(bytes, input, n)
  }

  ghost predicate Follows(bytes: seq<Byte>, input: seq<Byte>, n: nat)
    requires n <= FULL_RUN && n <= |input|
    decreases |input|, |bytes|, 0
  {
    && IsBlock(bytes, input, n)
    && if n == FULL_RUN then IsStuffed(bytes[n + 1..], input[n..])
       else if n == |input| then |bytes| == n + 1
       else input[n] == 0 && IsStuffed(bytes[n + 1..], input[n + 1..])
  }

  predicate IsBlock(bytes: seq<Byte>, input: seq<Byte>, n: nat)
    requires n <= |input|
  {
    n < |bytes| && bytes[0] == n + 1 && bytes[1..n + 1] == input[..n] && 0 !in input[..n]
  }

  /** The length of the block the input begins with. */
  function RunLength(input: seq<Byte>, limit: nat): (n: nat)
    ensures n <= limit && n <= |input| && 0 !in input[..n]
    ensures n < limit && n < |input| ==> input[n] == 0
    decreases |input|
  {
    if limit == 0 || input == [] || input[0] == 0 then 0
    else
      var n := RunLength(input[1..], limit - 1);
      assert input[..n + 1] == [input[0]] + input[1..][..n];
      n + 1
  }

  lemma {:induction false} FirstRun(run: seq<Byte>, input: seq<Byte>)
    requires |run| < FULL_RUN
    ensures var n := RunLength(input, FULL_RUN - |run|);
            var block := run + input[..n];
            EncodeFrom(run, input) == [|block| + 1] + block +
              if |block| == FULL_RUN then EncodeFrom([], input[n..])
              else if n == |input| then [] else EncodeFrom([], input[n + 1..])
    decreases |input|
  {
    if input == [] || input[0] == 0 {
      assert run + input[..0] == run;
    } else if |run| + 1 == FULL_RUN {
      FullRun(run, input);
    } else {
      FirstRun(run + [input[0]], input[1..]);
      var n := RunLength(input[1..], FULL_RUN - |run| - 1);
      assert RunLength(input, FULL_RUN - |run|) == n + 1;
      OneOff(run, input, n);
    }
  }

  lemma OneOff(run: seq<Byte>, input: seq<Byte>, n: nat)
    requires n < |input|
    ensures run + input[..n + 1] == run + [input[0]] + input[1..][..n]
    ensures input[1..][n..] == input[n + 1..]
    ensures n + 1 < |input| ==> input[1..][n + 1..] == input[n + 2..]
  {
  }

  lemma FullRun(run: seq<Byte>, input: seq<Byte>)
    requires |run| + 1 == FULL_RUN && input != [] && input[0] != 0
    ensures RunLength(input, 1) == 1 && run + input[..1] == run + [input[0]]
    ensures EncodeFrom(run, input) == [FULL_RUN + 1] + (run + [input[0]]) + EncodeFrom([], input[1..])
  {
    assert RunLength(input[1..], 0) == 0;
    assert [FULL_RUN + 1] + run + [input[0]] == [FULL_RUN + 1] + (run + [input[0]]);
  }

  /** There is one block the input can begin with. */
  lemma OneRun(input: seq<Byte>, n: nat)
    requires n <= FULL_RUN && n <= |input| && 0 !in input[..n]
    requires n == FULL_RUN || n == |input| || input[n] == 0
    ensures n == RunLength(input, FULL_RUN)
  {
    var m := RunLength(input, FULL_RUN);
  }

  /** What has to follow the first block. */
  ghost function Rest(input: seq<Byte>, n: nat): seq<Byte>
    requires n <= |input|
  {
    if n == FULL_RUN then Encoding(input[n..]) else if n == |input| then [] else Encoding(input[n + 1..])
  }

  lemma EncodesBlock(input: seq<Byte>)
    ensures var n := RunLength(input, FULL_RUN); Encoding(input) == [n + 1] + input[..n] + Rest(input, n)
  {
    var n := RunLength(input, FULL_RUN);
    FirstRun([], input);
    assert [] + input[..n] == input[..n];
    if n < FULL_RUN && n == |input| { assert [n + 1] + input[..n] + [] == [n + 1] + input[..n]; }
  }

  lemma BlockAndRest(bytes: seq<Byte>, input: seq<Byte>, n: nat, rest: seq<Byte>)
    requires n <= FULL_RUN && n <= |input| && 0 !in input[..n]
    ensures bytes == [n + 1] + input[..n] + rest <==> IsBlock(bytes, input, n) && bytes[n + 1..] == rest
  {
    var whole := [n + 1] + input[..n] + rest;
    assert whole[1..n + 1] == input[..n] && whole[n + 1..] == rest;
    if n < |bytes| { assert bytes == [bytes[0]] + bytes[1..n + 1] + bytes[n + 1..]; }
  }

  /** The encoding is what the rule says, and nothing else is. */
  lemma {:induction false} CobsExactly(bytes: seq<Byte>, input: seq<Byte>)
    ensures IsStuffed(bytes, input) <==> bytes == Encoding(input)
    decreases |input|, |bytes|, 1
  {
    EncodesBlock(input);
    if n :| 0 <= n <= FULL_RUN && n <= |input| && Follows(bytes, input, n) {
      OneRun(input, n);
      BlockAndRest(bytes, input, n, Rest(input, n));
      RestExactly(bytes, input, n);
    }
    if bytes == Encoding(input) {
      var n := RunLength(input, FULL_RUN);
      BlockAndRest(bytes, input, n, Rest(input, n));
      RestExactly(bytes, input, n);
    }
  }

  lemma {:induction false} RestExactly(bytes: seq<Byte>, input: seq<Byte>, n: nat)
    requires n <= FULL_RUN && n <= |input| && IsBlock(bytes, input, n)
    requires n == FULL_RUN || n == |input| || input[n] == 0
    ensures Follows(bytes, input, n) <==> bytes[n + 1..] == Rest(input, n)
    decreases |input|, |bytes|, 0
  {
    if n == FULL_RUN {
      CobsExactly(bytes[n + 1..], input[n..]);
    } else if n < |input| {
      CobsExactly(bytes[n + 1..], input[n + 1..]);
    }
  }
}
