/**
 * The two pure steps of the input loop in `main`: cutting the input into
 * lines the way `read_until` does, removing each line's terminator, and
 * numbering the lines from the start number. The reading itself, the UTF-8
 * check and the dispatch to worker threads are not modelled.
 */
module Lines {
  import opened Text

  newtype byte = x: int | 0 <= x < 256

  const LF: byte := 10
  const CR: byte := 13
  const NUL: byte := 0

  /** The length of the next chunk `read_until` returns: up to and including the first terminator, or all of the rest. */
  function ChunkLen(input: seq<byte>, ending: byte): (n: nat)
    requires |input| > 0
    ensures 1 <= n <= |input|
  {
    if input[0] == ending || |input| == 1 then 1 else 1 + ChunkLen(input[1..], ending)
  }

  /** The chunk holds no terminator before its last byte, and ends with one unless it is all of the rest. */
  lemma {:induction false} ChunkLenStops(input: seq<byte>, ending: byte)
    requires |input| > 0
    ensures var n := ChunkLen(input, ending);
      (forall k :: 0 <= k < n - 1 ==> input[k] != ending) && (input[n - 1] == ending || n == |input|)
    decreases |input|
  {
    if !(input[0] == ending || |input| == 1) {
      var n := ChunkLen(input, ending);
      ChunkLenStops(input[1..], ending);
      forall k | 0 <= k < n - 1
        ensures input[k] != ending
      {
        if k > 0 {
          assert input[k] == input[1..][k - 1];
        }
      }
      assert input[n - 1] == input[1..][n - 2];
    }
  }

  /** The chunks successive `read_until` calls return until one returns nothing. */
  function ReadChunks(input: seq<byte>, ending: byte): (r: seq<seq<byte>>)
    ensures |r| == 0 <==> |input| == 0
    ensures |r| <= |input|
    decreases |input|
  {
    if |input| == 0 then []
    else
      var n := ChunkLen(input, ending);
      [input[..n]] + ReadChunks(input[n..], ending)
  }

  function Flatten(chunks: seq<seq<byte>>): seq<byte>
  {
    if |chunks| == 0 then [] else chunks[0] + Flatten(chunks[1..])
  }

  /** The chunks put together are the input. */
  lemma {:induction false} ReadChunksFlatten(input: seq<byte>, ending: byte)
    ensures Flatten(ReadChunks(input, ending)) == input
    decreases |input|
  {
    if |input| > 0 {
      var n := ChunkLen(input, ending);
      var head, tail := input[..n], input[n..];
      var rest := ReadChunks(tail, ending);
      assert ReadChunks(input, ending) == [head] + rest;
      ReadChunksFlatten(tail, ending);
      FlattenCons(head, rest);
      assert input == head + tail;
    }
  }

  lemma FlattenCons(c: seq<byte>, rest: seq<seq<byte>>)
    ensures Flatten([c] + rest) == c + Flatten(rest)
  {
    assert ([c] + rest)[1..] == rest;
  }

  /** Each chunk is non-empty, holds the terminator only as its last byte, and every chunk but the last ends with it. */
  predicate ChunkShape(c: seq<byte>, ending: byte, final: bool)
  {
    |c| > 0 && (forall k :: 0 <= k < |c| - 1 ==> c[k] != ending) && (!final ==> c[|c| - 1] == ending)
  }

  lemma {:induction false} ReadChunksShape(input: seq<byte>, ending: byte)
    ensures forall i :: 0 <= i < |ReadChunks(input, ending)| ==>
      ChunkShape(ReadChunks(input, ending)[i], ending, i == |ReadChunks(input, ending)| - 1)
    decreases |input|
  {
    if |input| > 0 {
      var n := ChunkLen(input, ending);
      ChunkLenStops(input, ending);
      var rest := ReadChunks(input[n..], ending);
      ReadChunksShape(input[n..], ending);
      var chunks := ReadChunks(input, ending);
      assert chunks == [input[..n]] + rest;
      assert n == |input| ==> rest == [];
      assert ChunkShape(chunks[0], ending, 0 == |chunks| - 1);
      forall i | 1 <= i < |chunks|
        ensures ChunkShape(chunks[i], ending, i == |chunks| - 1)
      {
        assert chunks[i] == rest[i - 1];
      }
    }
  }

  /** The line without its terminator: a trailing CR LF, or else a trailing LF or NUL, is removed. */
  function StripLineEnding(buffer: seq<byte>): (r: seq<byte>)
    ensures |r| <= |buffer| && r == buffer[..|r|] && |buffer| - 2 <= |r|
  {
    if |buffer| >= 2 && buffer[|buffer| - 2..] == [CR, LF] then buffer[..|buffer| - 2]
    else if |buffer| >= 1 && (buffer[|buffer| - 1] == LF || buffer[|buffer| - 1] == NUL) then buffer[..|buffer| - 1]
    else buffer
  }

  /** The terminators are removed exactly: CR LF, a lone LF, NUL; a line without one is kept whole. */
  lemma StripLineEndingExact(line: seq<byte>)
    ensures StripLineEnding(line + [CR, LF]) == line
    ensures StripLineEnding(line + [NUL]) == line
    ensures (|line| == 0 || line[|line| - 1] != CR) ==> StripLineEnding(line + [LF]) == line
    ensures (|line| == 0 || (line[|line| - 1] != LF && line[|line| - 1] != NUL)) ==> StripLineEnding(line) == line
  {
    StripCrLf(line);
    StripLast(line, NUL);
    if |line| == 0 || line[|line| - 1] != CR {
      StripLast(line, LF);
    }
    if |line| == 0 || (line[|line| - 1] != LF && line[|line| - 1] != NUL) {
      StripNone(line);
    }
  }

  lemma StripCrLf(line: seq<byte>)
    ensures StripLineEnding(line + [CR, LF]) == line
  {
    var b := line + [CR, LF];
    assert b[|b| - 2..] == [CR, LF];
    assert b[..|b| - 2] == line;
  }

  lemma StripLast(line: seq<byte>, end: byte)
    requires end == LF || end == NUL
    requires end == LF ==> |line| == 0 || line[|line| - 1] != CR
    ensures StripLineEnding(line + [end]) == line
  {
    var b := line + [end];
    assert b[|b| - 1] == end;
    assert b[..|b| - 1] == line;
    if |b| >= 2 {
      assert b[|b| - 2..][0] == b[|b| - 2];
      assert b[|b| - 2..] != [CR, LF];
    }
  }

  lemma StripNone(line: seq<byte>)
    requires |line| == 0 || (line[|line| - 1] != LF && line[|line| - 1] != NUL)
    ensures StripLineEnding(line) == line
  {
    if |line| >= 2 {
      assert line[|line| - 2..][1] == line[|line| - 1];
    }
  }

  const TWO_TO_32: int := 0x1_0000_0000

  /** An `i32` addition that wraps around, as a release build computes `line_num += 1`. */
  function WrapI32(x: int): (r: int)
    ensures IsI32(r)
    ensures (r - x) % TWO_TO_32 == 0
    ensures IsI32(x) ==> r == x
  {
    (x - I32_MIN) % TWO_TO_32 + I32_MIN
  }

  lemma WrapCongruent(x: int, y: int)
    requires (x - y) % TWO_TO_32 == 0
    ensures WrapI32(x) == WrapI32(y)
  {
    var q := (x - y) / TWO_TO_32;
    assert x - I32_MIN == (y - I32_MIN) + q * TWO_TO_32;
    ModShift(y - I32_MIN, q);
  }

  lemma ModShift(a: int, q: int)
    ensures (a + q * TWO_TO_32) % TWO_TO_32 == a % TWO_TO_32
  {
  }

  /**
   * The input loop without its reading and dispatch: each buffer loses its
   * terminator and gets the next line number, the first one `startnum`.
   */
  method NumberLines(buffers: seq<seq<byte>>, startnum: int) returns (lines: seq<(seq<byte>, int)>)
    requires IsI32(startnum)
    ensures |lines| == |buffers|
    ensures forall k :: 0 <= k < |lines| ==> lines[k] == (StripLineEnding(buffers[k]), WrapI32(startnum + k))
    ensures forall k :: 0 <= k < |lines| && IsI32(startnum + k) ==> lines[k].1 == startnum + k
  {
    var lineNum := WrapI32(startnum - 1);
    lines := [];
    for i := 0 to |buffers|
      invariant |lines| == i && lineNum == WrapI32(startnum - 1 + i)
      invariant forall k :: 0 <= k < i ==> lines[k] == (StripLineEnding(buffers[k]), WrapI32(startnum + k))
    {
      var buffer := StripLineEnding(buffers[i]);
      WrapCongruent(lineNum + 1, startnum + i);
      lineNum := WrapI32(lineNum + 1);
      lines := lines + [(buffer, lineNum)];
    }
  }
}
