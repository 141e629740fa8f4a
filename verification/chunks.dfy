/** Where the backward reader seeks next and how much it reads.

    Reading proceeds from the end of the file towards its start. Each read
    ends exactly where the previous one began, and never begins on a byte
    that can only continue a terminator, so "\r\n" is never cut in two at
    the start of a chunk. */
module ChunkPlacement {
  import opened Terminators

  /** A seek offset and the number of bytes to read from it. */
  datatype ReadPlan = ReadPlan(seek: nat, size: nat)

  /** The bytes read and the offset they were read from. */
  datatype Chunk = Chunk(content: Bytes, readPosition: nat)

  /** Seeking to `offset` and reading `n` bytes: at most `n` bytes, fewer
      when the end of the file comes first, none past the end. */
  function ReadAt(file: Bytes, offset: nat, n: nat): (r: Bytes)
    ensures |r| <= n
    ensures offset <= |file| ==> offset + |r| <= |file| && r == file[offset..offset + |r|]
    ensures offset + n <= |file| ==> |r| == n
  {
    if offset >= |file| then []
    else if offset + n <= |file| then file[offset..offset + n]
    else file[offset..]
  }

  /** Steps `seek` back one byte at a time while the byte there is a
      continuation byte of a terminator, stopping at offset 0. */
  function BackUp(file: Bytes, seek: nat): (r: nat)
    ensures r <= seek
    ensures r > 0 ==> !IsPartiallyReadNewLine(ReadAt(file, r, 1))
    ensures forall j :: r < j <= seek ==> IsPartiallyReadNewLine(ReadAt(file, j, 1))
    decreases seek
  {
    if seek > 0 && IsPartiallyReadNewLine(ReadAt(file, seek, 1)) then BackUp(file, seek - 1)
    else seek
  }

  /** The tentative seek offset: one chunk before `prev`, but not before the start. */
  function Tentative(prev: nat, chunkSize: nat): nat {
    if prev > chunkSize then prev - chunkSize else 0
  }

  /** The next read: it ends exactly at `prev`, starts strictly before `prev`
      unless `prev` is the start of the file (or the chunk size is zero), and
      starts on a byte that is not a terminator continuation, backing up from
      the tentative offset only over such continuation bytes. */
  function WhatToReadNext(file: Bytes, prev: nat, chunkSize: nat): (r: ReadPlan)
    ensures r.seek <= prev && r.seek + r.size == prev
    ensures prev > 0 && chunkSize > 0 ==> r.seek < prev
    ensures 0 < r.seek < |file| ==> file[r.seek] != LF
    ensures r.seek <= Tentative(prev, chunkSize)
    ensures forall j :: r.seek < j <= Tentative(prev, chunkSize) ==> j < |file| && file[j] == LF
  {
    var tentative := Tentative(prev, chunkSize);
    var seek := BackUp(file, tentative);
    var size := chunkSize + (tentative - seek);
    assert 0 < seek < |file| ==> ReadAt(file, seek, 1) == [file[seek]];
    assert forall j :: seek < j <= tentative ==> ReadAt(file, j, 1) == [file[j]];
    ReadPlan(seek, if prev - seek < size then prev - seek else size)
  }

  /** Performs the planned read: within the file, the content is exactly the
      file bytes from the new read position up to `prev`. */
  function GetNextChunk(file: Bytes, prev: nat, chunkSize: nat): (c: Chunk)
    ensures c.readPosition <= prev
    ensures prev > 0 && chunkSize > 0 ==> c.readPosition < prev
    ensures prev <= |file| ==> c.content == file[c.readPosition..prev]
    ensures 0 < c.readPosition < |file| ==> file[c.readPosition] != LF
  {
    var plan := WhatToReadNext(file, prev, chunkSize);
    Chunk(ReadAt(file, plan.seek, plan.size), plan.seek)
  }
}
