/** The buffer work space: the state of a backward line reader.

    `readPosition` is the file offset the buffer starts at; `readBuffer`,
    when present, holds the file bytes from `readPosition` on that have not
    been returned as lines yet. The file is an immutable byte sequence and
    reading from it is slicing. */
module BufferWorkSpace {
  import opened Terminators
  import opened ChunkPlacement

  datatype Option<T> = None | Some(value: T)

  datatype WorkSpace = WorkSpace(
    file: Bytes,
    chunkSize: nat,
    readPosition: nat,
    readBuffer: Option<Bytes>)

  /** A returned line together with the state after returning it. */
  datatype Returned = Returned(line: Bytes, rest: WorkSpace)

  /** The buffered bytes; none when there is no buffer. */
  function Contents(w: WorkSpace): Bytes {
    match w.readBuffer
    case None => []
    case Some(b) => b
  }

  /** The file offset just past the buffered bytes. */
  function End(w: WorkSpace): nat {
    w.readPosition + |Contents(w)|
  }

  /** The buffer is the file slice that starts at `readPosition`. */
  predicate Valid(w: WorkSpace) {
    && End(w) <= |w.file|
    && Contents(w) == w.file[w.readPosition..End(w)]
  }

  /** Unless the buffer starts at the beginning of the file, it is non-empty
      and does not start with a byte that only continues a terminator. */
  predicate Aligned(w: WorkSpace) {
    w.readPosition > 0 && w.readBuffer.Some? ==> |Contents(w)| > 0 && Contents(w)[0] != LF
  }

  /** There is still something to return: unread bytes, or buffered ones. */
  predicate Live(w: WorkSpace) {
    match w.readBuffer
    case None => w.readPosition > 0
    case Some(b) => |b| > 0
  }

  /** has_returned_every_line. */
  predicate HasReturnedEveryLine(w: WorkSpace) {
    w.readPosition == 0 && w.readBuffer.None?
  }

  /** A fresh work space: nothing read yet, positioned just past the end. */
  function Init(file: Bytes, chunkSize: nat): (w: WorkSpace)
    ensures Valid(w) && Aligned(w)
    ensures End(w) == |file| && w.file == file && w.chunkSize == chunkSize
    ensures HasReturnedEveryLine(w) <==> |file| == 0
    ensures Live(w) <==> |file| > 0
  {
    WorkSpace(file, chunkSize, |file|, None)
  }

  /** Prepends `content`, read at `readPosition`, to the buffer. When the
      content is the file slice between the new and the old position, the
      buffer stays the file slice from the new position and its end does
      not move. */
  function AddToBuffer(w: WorkSpace, content: Bytes, readPosition: nat): (w': WorkSpace)
    ensures w'.readBuffer.Some? && Contents(w') == content + Contents(w)
    ensures w'.readPosition == readPosition
    ensures w'.file == w.file && w'.chunkSize == w.chunkSize
    ensures (Valid(w) && readPosition <= w.readPosition && content == w.file[readPosition..w.readPosition])
              ==> Valid(w') && End(w') == End(w)
  {
    var buffer := match w.readBuffer
      case None => content
      case Some(b) => content + b;
    w.(readPosition := readPosition, readBuffer := Some(buffer))
  }

  /** A line can be returned without reading: there is a buffer, and either
      a terminator remains once the trailing one is stripped, or the buffer
      reaches back to the start of the file. */
  predicate Yieldable(w: WorkSpace) {
    match w.readBuffer
    case None => false
    case Some(b) =>
      var t := RemoveTrailingNewLine(b);
      var n := FindFurthestNewLine(t);
      if n >= 0 then true
      else w.readPosition == 0
  }

  /** The last line of a buffer: what follows the last break byte once the
      trailing terminator is stripped. */
  function LastLine(b: Bytes): Bytes {
    var t := RemoveTrailingNewLine(b);
    t[LastBreak(t) + 1..]
  }

  /** What precedes the last line of a buffer, up to and including the break
      byte before it; empty when there is none. */
  function Remainder(b: Bytes): Bytes {
    var t := RemoveTrailingNewLine(b);
    t[..LastBreak(t) + 1]
  }

  /** Returns the last line of the buffer and keeps what precedes it. Only
      the buffer changes, and it goes away only at the start of the file. */
  function ReturnLine(w: WorkSpace): (r: Returned)
    requires Yieldable(w)
    ensures r.rest == w.(readBuffer := r.rest.readBuffer)
    ensures r.rest.readBuffer.None? ==> w.readPosition == 0 && HasReturnedEveryLine(r.rest)
  {
    var t := RemoveTrailingNewLine(w.readBuffer.value);
    var i := FindFurthestNewLine(t);
    if i >= 0 then
      Returned(t[i + 1..], w.(readBuffer := Some(t[..i + 1])))
    else
      Returned(t, w.(readBuffer := None))
  }

  /** Reads chunk after chunk, each prepended to the buffer, until a line can
      be returned. The buffer grows only at its front, by exactly the file
      bytes between the new and the old read position. */
  method ReadUntilYieldable(w0: WorkSpace) returns (w: WorkSpace)
    requires w0.chunkSize > 0
    requires Valid(w0)
    ensures Yieldable(w) && Valid(w)
    ensures w.file == w0.file && w.chunkSize == w0.chunkSize
    ensures w.readPosition <= w0.readPosition
    ensures Contents(w) == w.file[w.readPosition..w0.readPosition] + Contents(w0)
    ensures Aligned(w0) ==> Aligned(w)
    ensures Live(w0) ==> Live(w)
  {
    w := w0;
    while !Yieldable(w)
      invariant Valid(w)
      invariant w.file == w0.file && w.chunkSize == w0.chunkSize
      invariant w.readPosition <= w0.readPosition
      invariant Contents(w) == w.file[w.readPosition..w0.readPosition] + Contents(w0)
      invariant Aligned(w0) ==> Aligned(w)
      invariant Live(w0) ==> Live(w)
      decreases w.readPosition, if w.readBuffer.None? then 1 else 0
    {
      var c := GetNextChunk(w.file, w.readPosition, w.chunkSize);
      ReadStep(w0, w, c);
      w := AddToBuffer(w, c.content, c.readPosition);
    }
  }

  /** A line is ready exactly when there is a buffer and either it still
      holds a terminator byte once the trailing terminator is stripped, or
      it reaches back to the start of the file. */
  lemma YieldableSpec(w: WorkSpace)
    ensures Yieldable(w) <==> (w.readBuffer.Some?
              && (!BreakFree(RemoveTrailingNewLine(Contents(w))) || w.readPosition == 0))
  {
    BreakFreeIffNoLastBreak(RemoveTrailingNewLine(Contents(w)));
  }

  /** A buffer is its remainder, its last line and its trailing terminator;
      the last line holds no break byte; a non-empty remainder is shorter
      than the buffer, starts where it does and ends with a break byte. */
  lemma SplitFacts(b: Bytes)
    ensures Remainder(b) + LastLine(b) + TrailingNewLine(b) == b
    ensures BreakFree(LastLine(b))
    ensures Remainder(b) != [] ==>
              && |Remainder(b)| < |b|
              && IsBreak(Remainder(b)[|Remainder(b)| - 1])
              && Remainder(b)[0] == b[0]
  {
    var t := RemoveTrailingNewLine(b);
    var i := LastBreak(t);
    LastBreakIsLast(t);
    TrailingNewLineRebuilds(b);
    assert t[..i + 1] + t[i + 1..] == t;
  }

  /** The remainder is empty exactly when no break byte is left once the
      trailing terminator is stripped. */
  lemma RemainderEmptyIff(b: Bytes)
    ensures Remainder(b) == [] <==> BreakFree(RemoveTrailingNewLine(b))
  {
    BreakFreeIffNoLastBreak(RemoveTrailingNewLine(b));
  }

  /** `ReturnLine` hands out the last line and keeps the remainder. */
  lemma ReturnLineSplits(w: WorkSpace)
    requires Yieldable(w)
    ensures ReturnLine(w).line == LastLine(Contents(w))
    ensures ReturnLine(w).rest.readBuffer
            == if Remainder(Contents(w)) == [] then None else Some(Remainder(Contents(w)))
  {
    SplitFacts(Contents(w));
  }

  /** The returned line holds no terminator. */
  lemma ReturnLineHasNoTerminator(w: WorkSpace)
    requires Yieldable(w)
    ensures BreakFree(ReturnLine(w).line)
    ensures forall j :: !TerminatorAt(ReturnLine(w).line, j)
  {
    ReturnLineSplits(w);
    SplitFacts(Contents(w));
    forall j
      ensures !TerminatorAt(ReturnLine(w).line, j)
    {
      TerminatorAtIffBreak(ReturnLine(w).line, j);
    }
  }

  /** No byte is lost or reordered: what is left of the buffer, the line and
      the stripped trailing terminator make up the old buffer. */
  lemma ReturnLineLosesNothing(w: WorkSpace)
    requires Yieldable(w)
    ensures Contents(ReturnLine(w).rest) + ReturnLine(w).line + TrailingNewLine(Contents(w)) == Contents(w)
  {
    ReturnLineSplits(w);
    SplitFacts(Contents(w));
  }

  /** What is left is shorter than the old buffer, starts with the same byte
      and ends with a break byte. */
  lemma ReturnLineShrinks(w: WorkSpace)
    requires Yieldable(w)
    ensures var rest := Contents(ReturnLine(w).rest);
            ReturnLine(w).rest.readBuffer.Some? ==>
              && 0 < |rest| < |Contents(w)|
              && IsBreak(rest[|rest| - 1])
              && rest[0] == Contents(w)[0]
  {
    ReturnLineSplits(w);
    SplitFacts(Contents(w));
  }

  /** Returning a line keeps the buffer the file slice from the read position. */
  lemma ReturnLineKeepsValid(w: WorkSpace)
    requires Yieldable(w) && Valid(w)
    ensures Valid(ReturnLine(w).rest)
  {
    ReturnLineSplits(w);
    KeepPrefixValid(w, Remainder(Contents(w)));
  }

  /** Keeping a prefix of the buffer, or dropping it, keeps the buffer the
      file slice from the read position. */
  lemma KeepPrefixValid(w: WorkSpace, prefix: Bytes)
    ensures Valid(w) && prefix <= Contents(w) ==> Valid(w.(readBuffer := Some(prefix)))
    ensures Valid(w) ==> Valid(w.(readBuffer := None))
  {
    if Valid(w) && prefix <= Contents(w) {
      var b := Contents(w);
      assert prefix == b[..|prefix|] == w.file[w.readPosition..w.readPosition + |prefix|];
    }
  }

  /** One pass of the reading loop keeps its invariants, given a chunk that
      ends at the read position and starts on a byte other than LF. */
  lemma ReadStep(w0: WorkSpace, w: WorkSpace, c: Chunk)
    requires Valid(w) && Valid(w0)
    requires w.readBuffer.Some? ==> w.readPosition > 0
    requires c.readPosition <= w.readPosition && c.content == w.file[c.readPosition..w.readPosition]
    requires w.readPosition > 0 ==> c.readPosition < w.readPosition
    requires 0 < c.readPosition < |w.file| ==> w.file[c.readPosition] != LF
    requires w.readPosition <= w0.readPosition && w.file == w0.file
    requires Contents(w) == w.file[w.readPosition..w0.readPosition] + Contents(w0)
    ensures var w' := AddToBuffer(w, c.content, c.readPosition);
            && Valid(w') && w'.readPosition <= w.readPosition
            && (w.readBuffer.Some? ==> w'.readPosition < w.readPosition)
            && Contents(w') == w'.file[w'.readPosition..w0.readPosition] + Contents(w0)
            && (Aligned(w) ==> Aligned(w'))
            && (Live(w) ==> Live(w'))
  {
    var w' := AddToBuffer(w, c.content, c.readPosition);
    var f := w.file;
    assert f[c.readPosition..w.readPosition] + f[w.readPosition..w0.readPosition]
        == f[c.readPosition..w0.readPosition];
    assert Contents(w') == f[c.readPosition..w.readPosition] + Contents(w);
  }
}
