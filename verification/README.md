# Backward line buffer

A model of the buffer work space that `file_read_backwards` reads a file
through, last line first. The file is read in chunks, moving from its end
towards its start. Each chunk is prepended to a buffer. Once the buffer holds
a complete line, the last line is handed out with its terminator stripped.
The terminators are the UTF-8 bytes of `"\r\n"`, `"\n"` and `"\r"`, and a
`"\r\n"` is never split across two lines, whatever the chunk size.

The model has five modules:

- `Terminators` (`terminators.dfy`): the terminator list. It also holds
  `bytes.find`/`bytes.rfind`, the stable longest-first sort, stripping one
  trailing terminator, finding the furthest terminator, and the test for a
  byte that only continues a terminator.
- `ChunkPlacement` (`chunks.dfy`): where to seek next, how much to read, and
  the read itself. The tentative offset `max(previously_read_position -
  chunk_size, 0)` (`file_read_backwards/buffer_work_space.py:128`) is
  `ChunkPlacement.Tentative`. The file is an immutable byte sequence, and
  seeking and reading is slicing it, including the short read at the end of
  the file.
- `BufferWorkSpace` (`workspace.dfy`): the work space state (file, chunk
  size, read position, optional buffer) and its operations. The `yieldable`
  test (`file_read_backwards/buffer_work_space.py:43-56`) is the predicate
  `BufferWorkSpace.Yieldable`. `has_returned_every_line` (lines 86-90) is
  the predicate `BufferWorkSpace.HasReturnedEveryLine`. The table below names
  the lemmas about them.
- `BackwardLines` (`backward.dfy`):
  - A chunk-free reference for the lines of a byte sequence, `LinesOf`, with
    its inverse `Join`.
  - The driving loop `ReadAllLines`. It reads until a line is ready, returns
    it, and repeats until every line has been returned. Its result is the
    reference lines of the file for every positive chunk size.
- `Scenarios` (`scenarios.dfy`): worked inputs, including `"one\ntwo\nthree"`
  read four bytes at a time, `"x\r\ny"` read one byte at a time, and the
  mixed terminators of `"a\r\nb\rc\n"`.

The loop invariant of `ReadAllLines` includes `Aligned`: unless the buffer
starts at offset 0, it is non-empty and does not start with `"\n"`. The
back-up loop that chooses the seek offset keeps it. For the UTF-8 terminators
the returned line does not depend on it. `ReturnLineIsReference` holds for any
ready buffer that is a file slice. A ready buffer past offset 0 still holds a
break byte once its trailing terminator is stripped, so its trailing
terminator lies wholly inside it (`SplitSuffix`). The back-up loop matters for
encodings whose terminators have other continuation bytes, such as UTF-16,
and those are left out.

## Model

| member | source | states |
|---|---|---|
| Terminators.SortKeepsNewLineBytes | file_read_backwards/buffer_work_space.py:8 | The terminator list is "\r\n", "\n", "\r", and the stable longest-first sort leaves it in that order. |
| Terminators.SortByLength | file_read_backwards/buffer_work_space.py:151 | The longest-first sort is a permutation of the terminator list. |
| Terminators.SortByLengthOrdered | file_read_backwards/buffer_work_space.py:151 | The sorted list never gets longer along its length. |
| Terminators.InsertByLength | file_read_backwards/buffer_work_space.py:151 | One insertion step of the stable sort adds exactly the inserted element. |
| Terminators.InsertByLengthOrdered | file_read_backwards/buffer_work_space.py:151 | Inserting into a longest-first list keeps it longest first. |
| Terminators.RemoveTrailingNewLineSorted | file_read_backwards/buffer_work_space.py:151-155 | Removing the trailing terminator tries the terminators in sorted, longest-first order. |
| Terminators.StripFirstEnding | file_read_backwards/buffer_work_space.py:151-155 | Stripping yields a prefix of the line. |
| Terminators.StripFirstEndingSpec | file_read_backwards/buffer_work_space.py:151-155 | The first terminator the line ends with is removed, and only that one; with none, the line is returned unchanged. |
| Terminators.RemoveTrailingNewLine | file_read_backwards/buffer_work_space.py:144-155 | A trailing "\r\n" loses two bytes. A lone trailing "\n" or "\r" loses one. Otherwise nothing is removed. |
| Terminators.RemoveTrailingNewLineIsPrefix | file_read_backwards/buffer_work_space.py:153-154 | The stripped line is a prefix of the line. |
| Terminators.TrailingNewLine | file_read_backwards/buffer_work_space.py:151-155 | What gets stripped is empty or exactly one of the three terminators. |
| Terminators.TrailingNewLineRebuilds | file_read_backwards/buffer_work_space.py:144-155 | The stripped line followed by the stripped terminator is the original line. |
| Terminators.FindFrom | file_read_backwards/buffer_work_space.py:183 | bytes.find from an offset returns -1 or an index where the pattern occurs. |
| Terminators.FindFromIsFirst | file_read_backwards/buffer_work_space.py:183 | No occurrence at or after the offset comes before the one found. |
| Terminators.Find | file_read_backwards/buffer_work_space.py:183 | bytes.find returns -1 or an index where the pattern occurs. |
| Terminators.FindSpec | file_read_backwards/buffer_work_space.py:183 | find gives -1 exactly when there is no occurrence; otherwise it gives the first occurrence. |
| Terminators.RFindAtOrBelow | file_read_backwards/buffer_work_space.py:168 | Searching downwards from an index returns -1 or an occurrence at or below it. |
| Terminators.RFindAtOrBelowIsLast | file_read_backwards/buffer_work_space.py:168 | No occurrence at or below the index comes after the one found. |
| Terminators.RFind | file_read_backwards/buffer_work_space.py:168 | bytes.rfind returns -1 or an index where the pattern occurs. |
| Terminators.RFindSpec | file_read_backwards/buffer_work_space.py:168 | rfind gives -1 exactly when there is no occurrence; otherwise it gives the last occurrence. |
| Terminators.FurthestOf | file_read_backwards/buffer_work_space.py:168-169 | The maximum of the rfinds is -1 or the start of one of the patterns. |
| Terminators.FurthestOfSpec | file_read_backwards/buffer_work_space.py:168-169 | The maximum of the rfinds is -1 exactly when no pattern occurs; otherwise no pattern starts later. |
| Terminators.LastBreak | file_read_backwards/buffer_work_space.py:158-169 | Reference definition of the furthest terminator: -1 or the index of a "\r" or "\n" byte. |
| Terminators.LastBreakIsLast | file_read_backwards/buffer_work_space.py:158-169 | No "\r" or "\n" byte follows the last one. |
| Terminators.LastBreakUnique | file_read_backwards/buffer_work_space.py:158-169 | A break byte with no break byte after it is the last one. |
| Terminators.BreakFreeIffNoLastBreak | file_read_backwards/buffer_work_space.py:159 | The furthest-terminator index is -1 exactly when the bytes hold no "\r" or "\n". |
| Terminators.FurthestOfIsLastBreak | file_read_backwards/buffer_work_space.py:168-169 | For this terminator list, the maximum of the rfinds is the index of the last break byte. |
| Terminators.FindFurthestNewLine | file_read_backwards/buffer_work_space.py:158-169 | The furthest terminator is the last break byte of the buffer. |
| Terminators.FindFurthestNewLineSpec | file_read_backwards/buffer_work_space.py:158-169 | -1 exactly when no terminator occurs; otherwise a terminator starts at the index and none starts later. |
| Terminators.AnyContinuationSpec | file_read_backwards/buffer_work_space.py:182-185 | The loop returns true exactly when some terminator has its first occurrence of the byte at index 1 or later. |
| Terminators.IsPartiallyReadNewLine | file_read_backwards/buffer_work_space.py:172-185 | A one-byte read only continues a terminator exactly when it is "\n". |
| Terminators.AnyContinuationIsLF | file_read_backwards/buffer_work_space.py:182-185 | Only "\n" occurs past the start of a terminator as its first occurrence. |
| Terminators.NotContinuedBy | file_read_backwards/buffer_work_space.py:183 | Anything other than "\n" is first found in a terminator at index 0 or not at all. |
| Terminators.TerminatorAtIffBreak | file_read_backwards/buffer_work_space.py:8 | Some terminator starts at an index exactly when the byte there is "\r" or "\n". |
| Terminators.NoTerminatorIffNoOccurrence | file_read_backwards/buffer_work_space.py:168 | No terminator starts anywhere exactly when no terminator occurs. |
| Terminators.EndsWithOne | file_read_backwards/buffer_work_space.py:152 | endswith of a one-byte terminator tests the last byte. |
| Terminators.EndsWithTwo | file_read_backwards/buffer_work_space.py:152 | endswith of "\r\n" tests the last two bytes. |
| Terminators.StripNewLineBytes | file_read_backwards/buffer_work_space.py:151-155 | Stripping over the terminator list removes two, one or zero bytes, depending on how the line ends. |
| Terminators.StripWhenCRLF | file_read_backwards/buffer_work_space.py:152-154 | A line ending in "\r\n" loses both bytes. |
| Terminators.StripWhenLF | file_read_backwards/buffer_work_space.py:152-154 | A line ending in "\n" without "\r" before it loses one byte. |
| Terminators.StripWhenCR | file_read_backwards/buffer_work_space.py:152-154 | A line ending in "\r" loses one byte. |
| Terminators.StripWhenNone | file_read_backwards/buffer_work_space.py:155 | A line ending in neither byte is returned unchanged. |
| ChunkPlacement.ReadAt | file_read_backwards/buffer_work_space.py:110-111 | Seeking and reading gives at most the requested bytes, exactly the file bytes there, and the full count when the file is long enough. |
| ChunkPlacement.BackUp | file_read_backwards/buffer_work_space.py:132-138 | The back-up loop stops at 0 or on a byte that does not continue a terminator, and every byte it stepped over continues one. |
| ChunkPlacement.WhatToReadNext | file_read_backwards/buffer_work_space.py:116-141 | The planned read ends exactly at the previous position. It starts strictly before that position when that position is past 0. It starts at or before max(prev - chunk, 0), never on a "\n" past offset 0, and every byte it backed over is "\n". |
| ChunkPlacement.GetNextChunk | file_read_backwards/buffer_work_space.py:97-113 | The chunk is exactly the file bytes from the new read position to the previous one. The new position is strictly earlier when the previous one is past 0, and it is not on a "\n". |
| BufferWorkSpace.Init | file_read_backwards/buffer_work_space.py:15-28 | A fresh work space sits at the end of the file with no buffer. It is finished exactly when the file is empty. |
| BufferWorkSpace.AddToBuffer | file_read_backwards/buffer_work_space.py:30-41 | The content goes in front of the buffer and the read position moves to where it was read from. When the content is the file slice in between, the buffer stays the file slice from the read position. |
| BufferWorkSpace.YieldableSpec | file_read_backwards/buffer_work_space.py:43-56 | A line is ready exactly when there is a buffer and either a break byte survives stripping the trailing terminator, or the read position is 0. |
| BufferWorkSpace.ReturnLine | file_read_backwards/buffer_work_space.py:58-77 | Only the buffer changes. It disappears only when the read position is 0, which leaves every line returned. |
| BufferWorkSpace.ReturnLineSplits | file_read_backwards/buffer_work_space.py:65-76 | The returned line is what follows the last break byte once the trailing terminator is stripped. The buffer keeps everything up to and including that byte, or goes away. |
| BufferWorkSpace.SplitFacts | file_read_backwards/buffer_work_space.py:65-76 | A buffer is its remainder, then its last line, then its trailing terminator. The last line has no break byte, and a non-empty remainder ends with one. |
| BufferWorkSpace.RemainderEmptyIff | file_read_backwards/buffer_work_space.py:68-76 | Nothing is kept exactly when no break byte survives stripping the trailing terminator. |
| BufferWorkSpace.ReturnLineHasNoTerminator | file_read_backwards/buffer_work_space.py:58-77 | The returned line contains no terminator. |
| BufferWorkSpace.ReturnLineLosesNothing | file_read_backwards/buffer_work_space.py:58-77 | The kept buffer, the line and the stripped terminator concatenate to the old buffer. |
| BufferWorkSpace.ReturnLineShrinks | file_read_backwards/buffer_work_space.py:68-73 | A kept buffer is non-empty, strictly shorter than before, starts with the same byte and ends with a break byte. |
| BufferWorkSpace.ReturnLineKeepsValid | file_read_backwards/buffer_work_space.py:58-77 | After a line is returned, the buffer is still the file slice from the read position. |
| BufferWorkSpace.KeepPrefixValid | file_read_backwards/buffer_work_space.py:73-76 | Keeping a prefix of the buffer, or dropping it, keeps the buffer a file slice. |
| BufferWorkSpace.ReadUntilYieldable | file_read_backwards/buffer_work_space.py:79-84 | Stops with a line ready. Only bytes are prepended: exactly the file bytes between the new and the old read position. It keeps the alignment invariant and does not run dry while bytes remain. |
| BufferWorkSpace.ReadStep | file_read_backwards/buffer_work_space.py:81-84 | One pass of the reading loop keeps the buffer a file slice, moves the read position strictly back once a buffer exists, and keeps alignment. |
| BackwardLines.EndingsMatchLines | file_read_backwards/buffer_work_space.py:58-77 | Every line of the reference split has a terminator entry, and there is at least one line. |
| BackwardLines.LinesRoundTrip | file_read_backwards/buffer_work_space.py:58-77 | Joining the reference lines with their terminators rebuilds the bytes exactly. |
| BackwardLines.JoinRoundTrip | file_read_backwards/buffer_work_space.py:58-77 | For well-formed lines and terminators, splitting their join gives the lines back. |
| BackwardLines.SplitWellFormed | file_read_backwards/buffer_work_space.py:58-77 | The reference split is always well-formed: no line holds a break byte, every terminator but the last is real, and no "\r\n" is split. |
| BackwardLines.LinesBreakFree | file_read_backwards/buffer_work_space.py:58-77 | No reference line contains a "\r" or "\n" byte. |
| BackwardLines.EndingsAreNewLines | file_read_backwards/buffer_work_space.py:144-155 | The first terminator entry is the stripped trailing one. Every other entry is a real terminator. |
| BackwardLines.NoSplitCRLF | file_read_backwards/buffer_work_space.py:151-155 | No "\r" terminator is followed by an empty line ended by a lone "\n": a "\r\n" is never split in two. |
| BackwardLines.StripAppended | file_read_backwards/buffer_work_space.py:144-155 | Stripping a line with no breaks followed by a terminator gives back the line. |
| BackwardLines.LinesOfFirst | file_read_backwards/buffer_work_space.py:58-77 | A break-free line with an optional terminator is a single line. |
| BackwardLines.LinesOfAppend | file_read_backwards/buffer_work_space.py:58-77 | Appending a line and its terminator to bytes that end at a break puts that line first and leaves the older lines unchanged. |
| BackwardLines.SplitSuffix | file_read_backwards/buffer_work_space.py:65-76 | When bytes hold a break byte before their last line, putting anything in front of them changes neither the last line nor the remainder beyond the prefix. |
| BackwardLines.ReturnLineIsReference | file_read_backwards/buffer_work_space.py:58-77 | From any ready work space whose buffer is the file slice from its read position, the returned line is the next reference line, and what remains to hand out is the rest of them. |
| BackwardLines.ReturnLineAdvances | file_read_backwards/buffer_work_space.py:58-77 | Returning a line keeps the work space valid and aligned, and moves the end of the buffer back. The work space is either finished or still has work. |
| BackwardLines.ReadAndReturnStep | file_read_backwards/buffer_work_space.py:79-90 | A read-then-return round hands out the next pending line and keeps the loop invariants. |
| BackwardLines.ReadAllLines | file_read_backwards/buffer_work_space.py:79-90 | Reading until every line is returned yields exactly the reference lines of the file, whatever the chunk size. |
| Scenarios.ThreeLinesShape | file_read_backwards/buffer_work_space.py:58-77 | Three "\n"-separated lines with no terminator at the end come out last first. |
| Scenarios.CRLFShape | file_read_backwards/buffer_work_space.py:58-77 | Two "\r\n"-separated lines come out last first. |
| Scenarios.MixedShape | file_read_backwards/buffer_work_space.py:58-77 | Lines ended by "\r\n", "\r" and "\n" in turn come out last first, and the final "\n" makes no empty line. |
| Scenarios.MixedLines | file_read_backwards/buffer_work_space.py:58-77 | "a\r\nb\rc\n" gives "c", "b", "a". |
| Scenarios.ThreeLines | file_read_backwards/buffer_work_space.py:58-77 | "one\ntwo\nthree" gives "three", "two", "one". |
| Scenarios.CRLFLines | file_read_backwards/buffer_work_space.py:58-77 | "x\r\ny" gives "y", "x". |
| Scenarios.TerminatedLastLine | file_read_backwards/buffer_work_space.py:144-155 | A terminator at the very end does not make an empty last line. |
| Scenarios.EmptyLines | file_read_backwards/buffer_work_space.py:43-56 | A file holding only "\n" has one empty line. An empty file has none. |
| Scenarios.CRLFIsOneTerminator | file_read_backwards/buffer_work_space.py:151-155 | "\r\n" alone is one empty line, not two. |
| Scenarios.ReadCRLFByteByByte | file_read_backwards/buffer_work_space.py:132-138 | Read one byte at a time, "x\r\ny" still gives "y", "x". |
| Scenarios.ReadThreeLinesByFour | file_read_backwards/buffer_work_space.py:116-141 | Read four bytes at a time, "one\ntwo\nthree" gives "three", "two", "one". |

## Left out

- `_get_file_size` (`os.fstat`): the file size is the length of the byte sequence.
- The file object: `seek` and `read` become slicing an immutable byte sequence. I/O errors and files that change while being read are not modelled.
- The `encoding` parameter: the terminators are fixed to their UTF-8 (and ASCII) bytes. Encodings such as UTF-16, whose terminators have other continuation bytes, are not modelled.
- `return_line`'s `assert`: it becomes the precondition `Yieldable`.
- The `FileReadBackwards` iterator and its file opening, text decoding and closing. `BackwardLines.ReadAllLines` models only the loop that drives the work space.
- Negative chunk sizes: the chunk size is a natural number.
- BufferWorkSpace.ReadUntilYieldable: requires a positive chunk size. With a chunk size of 0, the loop in the code never ends once it reads an empty chunk.
- Chunk-size validation: `__init__` never checks the chunk size, so `Init` accepts any natural number; only `ReadUntilYieldable` needs it positive.
- Memory use and the cost of repeated prepending are not modelled.
