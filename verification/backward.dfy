/** Reading a whole file backwards, line by line, and what that produces.

    `LinesOf` is the reference: the lines of a byte sequence, last first, as
    they come out when the whole sequence is already in the buffer and sits at
    the start of the file. `ReadAllLines` drives the work space chunk by chunk
    the way an iterator over the file does; it returns exactly the reference
    lines, whatever the chunk size. */
module BackwardLines {
  import opened Terminators
  import opened ChunkPlacement
  import opened BufferWorkSpace

  /** The lines of `s`, last first. */
  function LinesOf(s: Bytes): (lines: seq<Bytes>)
    decreases |s|
  {
    [LastLine(s)] + if Remainder(s) == [] then [] else LinesOf(Remainder(s))
  }

  /** The terminator that follows each of `LinesOf(s)` in `s`, last first. */
  function EndingsOf(s: Bytes): seq<Bytes>
    decreases |s|
  {
    [TrailingNewLine(s)] + if Remainder(s) == [] then [] else EndingsOf(Remainder(s))
  }

  /** The lines a backward reader hands out for `file`: none for an empty file. */
  function AllLines(file: Bytes): seq<Bytes> {
    if |file| == 0 then [] else LinesOf(file)
  }

  /** Puts lines and their terminators back together, in file order. */
  function Join(lines: seq<Bytes>, endings: seq<Bytes>): Bytes
    requires |lines| == |endings|
  {
    if |lines| == 0 then [] else Join(lines[1..], endings[1..]) + lines[0] + endings[0]
  }

  /** Every line has its ending. */
  lemma {:induction false} EndingsMatchLines(s: Bytes)
    ensures |EndingsOf(s)| == |LinesOf(s)| > 0
    decreases |s|
  {
    SplitFacts(s);
    if Remainder(s) != [] {
      EndingsMatchLines(Remainder(s));
    }
  }

  /** Lines and terminators rebuild `s` exactly. */
  lemma {:induction false} LinesRoundTrip(s: Bytes)
    ensures |EndingsOf(s)| == |LinesOf(s)|
    ensures Join(LinesOf(s), EndingsOf(s)) == s
    decreases |s|
  {
    SplitFacts(s);
    EndingsMatchLines(s);
    var r := Remainder(s);
    var ls, es := LinesOf(s), EndingsOf(s);
    if r != [] {
      LinesRoundTrip(r);
      assert ls[1..] == LinesOf(r) && es[1..] == EndingsOf(r);
      assert Join(ls, es) == r + LastLine(s) + TrailingNewLine(s);
    } else {
      assert ls[1..] == [] && es[1..] == [];
      assert Join(ls, es) == [] + LastLine(s) + TrailingNewLine(s);
    }
  }

  /** No line holds a terminator byte. */
  lemma {:induction false} LinesBreakFree(s: Bytes)
    ensures forall k :: 0 <= k < |LinesOf(s)| ==> BreakFree(LinesOf(s)[k])
    decreases |s|
  {
    SplitFacts(s);
    var r := Remainder(s);
    var ls := LinesOf(s);
    if r != [] {
      LinesBreakFree(r);
      assert ls == [LastLine(s)] + LinesOf(r);
      forall k | 1 <= k < |ls|
        ensures BreakFree(ls[k])
      {
        assert ls[k] == LinesOf(r)[k - 1];
      }
    }
  }

  /** Every element is a terminator. */
  predicate AllNewLines(es: seq<Bytes>) {
    forall k :: 0 <= k < |es| ==> IsNewLine(es[k])
  }

  /** Every line but the last line of the file is ended by a terminator. */
  lemma {:induction false} EndingsAreNewLines(s: Bytes)
    ensures EndingsOf(s)[0] == TrailingNewLine(s)
    ensures AllNewLines(EndingsOf(s)[1..])
    decreases |s|
  {
    var r := Remainder(s);
    var es := EndingsOf(s);
    if r != [] {
      SplitFacts(s);
      EndingsAreNewLines(r);
      var er := EndingsOf(r);
      assert es[1..] == er;
      assert er == [TrailingNewLine(r)] + er[1..];
      assert |RemoveTrailingNewLine(r)| < |r|;
      assert IsNewLine(TrailingNewLine(r));
    } else {
      assert es[1..] == [];
    }
  }

  /** No "\r\n" is split into a "\r" ending one line and an empty line
      ended by a lone "\n". */
  lemma {:induction false} NoSplitCRLF(s: Bytes)
    ensures |EndingsOf(s)| == |LinesOf(s)|
    ensures forall k :: 1 <= k < |EndingsOf(s)| ==>
              !(EndingsOf(s)[k] == [CR] && LinesOf(s)[k - 1] == [] && EndingsOf(s)[k - 1] == [LF])
    decreases |s|
  {
    SplitFacts(s);
    EndingsMatchLines(s);
    var r := Remainder(s);
    if r != [] {
      NoSplitCRLF(r);
      var ls, es := LinesOf(s), EndingsOf(s);
      assert ls == [LastLine(s)] + LinesOf(r);
      assert es == [TrailingNewLine(s)] + EndingsOf(r);
      if es[1] == [CR] && ls[0] == [] && es[0] == [LF] {
        assert false;
      }
      forall k | 2 <= k < |es|
        ensures !(es[k] == [CR] && ls[k - 1] == [] && es[k - 1] == [LF])
      {
        assert es[k] == EndingsOf(r)[k - 1] && es[k - 1] == EndingsOf(r)[k - 2];
        assert ls[k - 1] == LinesOf(r)[k - 2];
      }
    }
  }

  /** Stripping a terminator, or nothing, off `p + e` leaves `p`, unless it
      is a lone "\n" right after a "\r" (which is stripped together with it). */
  lemma StripAppended(p: Bytes, e: Bytes)
    requires e == [] || IsNewLine(e)
    requires e == [] ==> |p| > 0 && !IsBreak(p[|p| - 1])
    requires e == [LF] ==> |p| == 0 || p[|p| - 1] != CR
    ensures RemoveTrailingNewLine(p + e) == p
  {
    var s := p + e;
    RemoveTrailingNewLineIsPrefix(s);
    assert s[..|p|] == p;
    if e == [LF] && |p| > 0 {
      assert s[|s| - 2] == p[|p| - 1];
    }
  }

  /** The lines of a single line followed by its terminator, or by none. */
  lemma LinesOfFirst(b: Bytes, e: Bytes)
    requires BreakFree(b) && (e == [] || IsNewLine(e))
    ensures LinesOf(b + e) == [b]
  {
    var s := b + e;
    if e == [] {
      assert s == b;
      if |b| > 0 {
        StripAppended(b, e);
      }
    } else {
      StripAppended(b, e);
    }
    BreakFreeIffNoLastBreak(b);
    assert b[..0] == [];
  }

  /** One more line after bytes that end with a break byte: it comes first,
      then the lines of what precedes it. */
  lemma LinesOfAppend(r: Bytes, b: Bytes, e: Bytes)
    requires |r| > 0 && IsBreak(r[|r| - 1])
    requires BreakFree(b) && (e == [] || IsNewLine(e))
    requires e == [] ==> |b| > 0
    requires e == [LF] && |b| == 0 ==> r[|r| - 1] != CR
    ensures LinesOf(r + b + e) == [b] + LinesOf(r)
  {
    AppendSplits(r, b, e);
  }

  /** The last line of `r + b + e` is `b`, and `r` is its remainder. */
  lemma AppendSplits(r: Bytes, b: Bytes, e: Bytes)
    requires |r| > 0 && IsBreak(r[|r| - 1])
    requires BreakFree(b) && (e == [] || IsNewLine(e))
    requires e == [] ==> |b| > 0
    requires e == [LF] && |b| == 0 ==> r[|r| - 1] != CR
    ensures LastLine(r + b + e) == b && Remainder(r + b + e) == r
  {
    var s, t := r + b + e, r + b;
    assert RemoveTrailingNewLine(s) == t by {
      assert s == t + e;
      StripAppended(t, e);
    }
    assert LastBreak(t) == |r| - 1 by {
      LastBreakUnique(t, |r| - 1);
    }
    assert t[|r|..] == b && t[..|r|] == r;
  }

  /** Well-formed lines and terminators, last first: no line holds a break
      byte; every line but the last line of the file has a terminator; an
      unterminated last line is not empty unless it is the only one; and no
      "\r" terminator is followed by an empty line ended by a lone "\n". */
  predicate WellFormed(ls: seq<Bytes>, es: seq<Bytes>) {
    && |ls| == |es| > 0
    && (forall k :: 0 <= k < |ls| ==> BreakFree(ls[k]))
    && (es[0] == [] || IsNewLine(es[0]))
    && (forall k :: 1 <= k < |es| ==> IsNewLine(es[k]))
    && (es[0] == [] && |ls| > 1 ==> |ls[0]| > 0)
    && (forall k :: 1 <= k < |es| ==> !(es[k] == [CR] && ls[k - 1] == [] && es[k - 1] == [LF]))
  }

  /** The bytes put back together end with the last terminator. */
  lemma JoinEndsWith(ls: seq<Bytes>, es: seq<Bytes>)
    requires |ls| == |es| > 0 && |es[0]| > 0
    ensures var j := Join(ls, es); |j| > 0 && j[|j| - 1] == es[0][|es[0]| - 1]
  {
  }

  /** Dropping the last line of the file keeps the rest well-formed, and
      the last line can be put back after it. */
  lemma WellFormedTail(ls: seq<Bytes>, es: seq<Bytes>)
    requires WellFormed(ls, es) && |ls| > 1
    ensures WellFormed(ls[1..], es[1..]) && IsNewLine(es[1])
    ensures BreakFree(ls[0]) && (es[0] == [] || IsNewLine(es[0]))
    ensures es[0] == [] ==> |ls[0]| > 0
    ensures !(es[1] == [CR] && ls[0] == [] && es[0] == [LF])
  {
    var ls', es' := ls[1..], es[1..];
    assert forall k :: 0 <= k < |ls'| ==> ls'[k] == ls[k + 1];
    assert forall k :: 0 <= k < |es'| ==> es'[k] == es[k + 1];
  }

  /** Splitting undoes joining: well-formed lines and terminators put back
      together split into the same lines. */
  lemma {:induction false} JoinRoundTrip(ls: seq<Bytes>, es: seq<Bytes>)
    requires WellFormed(ls, es)
    ensures LinesOf(Join(ls, es)) == ls
    decreases |ls|
  {
    if |ls| == 1 {
      JoinSingle(ls, es);
    } else {
      WellFormedTail(ls, es);
      JoinRoundTrip(ls[1..], es[1..]);
      JoinStep(ls, es);
    }
  }

  /** A single line and its terminator split back into that line. */
  lemma JoinSingle(ls: seq<Bytes>, es: seq<Bytes>)
    requires WellFormed(ls, es) && |ls| == 1
    ensures LinesOf(Join(ls, es)) == ls
  {
    assert ls[1..] == [] && es[1..] == [];
    assert Join(ls, es) == [] + ls[0] + es[0] == ls[0] + es[0];
    LinesOfFirst(ls[0], es[0]);
    assert ls == [ls[0]];
  }

  /** If the earlier lines split back, so does the file with its last line. */
  lemma JoinStep(ls: seq<Bytes>, es: seq<Bytes>)
    requires WellFormed(ls, es) && |ls| > 1
    requires LinesOf(Join(ls[1..], es[1..])) == ls[1..]
    ensures LinesOf(Join(ls, es)) == ls
  {
    var r := Join(ls[1..], es[1..]);
    JoinStepFacts(ls, es);
    LinesOfAppend(r, ls[0], es[0]);
    assert Join(ls, es) == r + ls[0] + es[0];
    assert ls == [ls[0]] + ls[1..];
  }

  /** The earlier lines joined end with a break byte, and the last line and
      its terminator can follow them. */
  lemma JoinStepFacts(ls: seq<Bytes>, es: seq<Bytes>)
    requires WellFormed(ls, es) && |ls| > 1
    ensures var r := Join(ls[1..], es[1..]);
            && |r| > 0 && IsBreak(r[|r| - 1])
            && BreakFree(ls[0]) && (es[0] == [] || IsNewLine(es[0]))
            && (es[0] == [] ==> |ls[0]| > 0)
            && (es[0] == [LF] && |ls[0]| == 0 ==> r[|r| - 1] != CR)
  {
    WellFormedTail(ls, es);
    JoinEndsWith(ls[1..], es[1..]);
  }

  /** Splitting yields well-formed lines and terminators. */
  lemma SplitWellFormed(s: Bytes)
    ensures WellFormed(LinesOf(s), EndingsOf(s))
  {
    EndingsMatchLines(s);
    LinesBreakFree(s);
    EndingsAreNewLines(s);
    NoSplitCRLF(s);
    var ls, es := LinesOf(s), EndingsOf(s);
    assert forall k :: 1 <= k < |es| ==> es[k] == es[1..][k - 1];
    if es[0] == [] && |ls| > 1 {
      SplitFacts(s);
      assert |s| > 0 && !IsBreak(s[|s| - 1]) by {
        RemoveTrailingNewLineIsPrefix(s);
      }
      assert ls[0] == LastLine(s);
    }
  }

  // ---------------------------------------------------------------------
  // Reading chunk by chunk gives the reference lines
  // ---------------------------------------------------------------------

  /** The lines a work space has still to hand out. */
  function Pending(w: WorkSpace): seq<Bytes>
    requires Valid(w)
  {
    if HasReturnedEveryLine(w) then [] else LinesOf(w.file[..End(w)])
  }

  /** Stripping the trailing terminator looks only at the end of the bytes,
      provided a one-byte suffix is not an LF whose CR lies before it. */
  lemma StripSuffix(a: Bytes, b: Bytes)
    requires |b| > 0
    requires |a| > 0 && |b| == 1 ==> b[0] != LF
    ensures RemoveTrailingNewLine(a + b) == a + RemoveTrailingNewLine(b)
  {
    var s := a + b;
    assert s[|s| - 1] == b[|b| - 1];
    if |b| >= 2 {
      assert s[|s| - 2..] == b[|b| - 2..];
    } else if |a| > 0 {
      assert s[|s| - 2..] == [a[|a| - 1], b[0]];
    }
    RemoveTrailingNewLineIsPrefix(s);
    RemoveTrailingNewLineIsPrefix(b);
    var n := |RemoveTrailingNewLine(s)| - |a|;
    assert n == |RemoveTrailingNewLine(b)|;
    assert RemoveTrailingNewLine(s) == s[..|a| + n] == a + b[..n];
  }

  /** The last break of `a + t` is that of `t`, shifted, when `t` has one. */
  lemma LastBreakShift(a: Bytes, t: Bytes)
    requires LastBreak(t) >= 0
    ensures LastBreak(a + t) == |a| + LastBreak(t)
  {
    var s, i := a + t, LastBreak(t);
    LastBreakIsLast(t);
    assert forall j :: |a| + i < j < |s| ==> s[j] == t[j - |a|];
    LastBreakUnique(s, |a| + i);
  }

  /** Splitting off the last line of `a + b` only looks at `b`, when `b`
      holds a break byte before its last line. What precedes `b`, and how
      `b` starts, do not matter: such a `b` has at least two bytes, so the
      trailing terminator lies wholly inside it. */
  lemma SplitSuffix(a: Bytes, b: Bytes)
    requires Remainder(b) != []
    ensures LastLine(a + b) == LastLine(b)
    ensures Remainder(a + b) == a + Remainder(b)
  {
    SplitFacts(b);
    assert |b| >= 2;
    StripSuffix(a, b);
    var tb := RemoveTrailingNewLine(b);
    var i := LastBreak(tb);
    assert i >= 0;
    LastBreakShift(a, tb);
    assert (a + tb)[|a| + i + 1..] == tb[i + 1..];
    assert (a + tb)[..|a| + i + 1] == a + tb[..i + 1];
  }

  /** A ready buffer that does not reach the start of the file still holds
      a break byte once its trailing terminator is stripped. */
  lemma ReadyInsideHasRemainder(w: WorkSpace)
    requires Yieldable(w) && w.readPosition > 0
    ensures Remainder(Contents(w)) != []
  {
    YieldableSpec(w);
    RemainderEmptyIff(Contents(w));
  }

  /** A buffer that starts at offset 0 is the file up to its end. */
  lemma FileSplitsAtStart(w: WorkSpace)
    requires Valid(w) && w.readPosition == 0
    ensures LastLine(w.file[..End(w)]) == LastLine(Contents(w))
    ensures Remainder(w.file[..End(w)]) == w.file[..w.readPosition] + Remainder(Contents(w))
  {
    assert w.file[..End(w)] == Contents(w);
    assert w.file[..w.readPosition] == [];
  }

  /** A buffer further in splits like the file up to its end, provided it
      holds a break byte before its last line. */
  lemma FileSplitsInside(w: WorkSpace)
    requires Valid(w) && w.readPosition > 0 && Remainder(Contents(w)) != []
    ensures LastLine(w.file[..End(w)]) == LastLine(Contents(w))
    ensures Remainder(w.file[..End(w)]) == w.file[..w.readPosition] + Remainder(Contents(w))
  {
    var b, s, a := Contents(w), w.file[..End(w)], w.file[..w.readPosition];
    assert s == a + b;
    SplitSuffix(a, b);
  }

  /** The file up to the end of a ready buffer that is the file slice from
      its read position splits where the buffer does: the same last line,
      and the remainder grows by the unread bytes. */
  lemma FileSplitsLikeBuffer(w: WorkSpace)
    requires Valid(w) && Yieldable(w)
    ensures w.readPosition > 0 ==> Remainder(Contents(w)) != []
    ensures LastLine(w.file[..End(w)]) == LastLine(Contents(w))
    ensures Remainder(w.file[..End(w)]) == w.file[..w.readPosition] + Remainder(Contents(w))
  {
    if w.readPosition == 0 {
      FileSplitsAtStart(w);
    } else {
      ReadyInsideHasRemainder(w);
      FileSplitsInside(w);
    }
  }

  /** When the state after a return keeps exactly the remainder of the file
      up to the old end, the line handed out is the first pending line and
      the rest are still pending. */
  lemma PendingAfterSplit(w: WorkSpace, rest: WorkSpace, line: Bytes)
    requires Valid(w) && w.readBuffer.Some? && Valid(rest) && rest.file == w.file
    requires line == LastLine(w.file[..End(w)])
    requires rest.readBuffer.None? ==> HasReturnedEveryLine(rest) && Remainder(w.file[..End(w)]) == []
    requires rest.readBuffer.Some? ==> w.file[..End(rest)] == Remainder(w.file[..End(w)]) != []
    ensures Pending(w) != [] && line == Pending(w)[0] && Pending(rest) == Pending(w)[1..]
  {
  }

  /** Returning a line from a ready work space whose buffer is the file
      slice from its read position hands out the next reference line, and
      what is left to hand out is the rest of them. How the buffer starts
      does not matter. */
  lemma ReturnLineIsReference(w: WorkSpace)
    requires Valid(w) && Yieldable(w)
    ensures var r := ReturnLine(w);
            && Valid(r.rest)
            && Pending(w) != []
            && r.line == Pending(w)[0]
            && Pending(r.rest) == Pending(w)[1..]
  {
    var r := ReturnLine(w);
    ReturnLineSplits(w);
    ReturnLineKeepsValid(w);
    FileSplitsLikeBuffer(w);
    var rb := Remainder(Contents(w));
    if rb != [] {
      assert w.file[..End(r.rest)] == w.file[..w.readPosition] + rb by {
        assert rb == w.file[w.readPosition..End(r.rest)];
      }
    }
    PendingAfterSplit(w, r.rest, r.line);
  }

  /** Returning a line from a live, ready work space keeps it well-formed,
      leaves it live unless every line is out, and moves its end back. */
  lemma ReturnLineAdvances(w: WorkSpace)
    requires Valid(w) && Aligned(w) && Yieldable(w) && Live(w)
    ensures var rest := ReturnLine(w).rest;
            && Valid(rest) && Aligned(rest)
            && (HasReturnedEveryLine(rest) || Live(rest))
            && End(rest) < End(w)
            && rest.file == w.file && rest.chunkSize == w.chunkSize
  {
    ReturnLineShrinks(w);
    ReturnLineKeepsValid(w);
  }

  /** One round of the reading loop: reading until a line is ready and
      returning it hands out the next pending line and keeps the loop's
      invariants, with the end of the buffer moved back. */
  lemma ReadAndReturnStep(w: WorkSpace, ready: WorkSpace)
    requires Valid(w) && Aligned(w) && Live(w)
    requires Valid(ready) && Aligned(ready) && Yieldable(ready) && Live(ready)
    requires ready.file == w.file && ready.chunkSize == w.chunkSize
    requires ready.readPosition <= w.readPosition
    requires Contents(ready) == ready.file[ready.readPosition..w.readPosition] + Contents(w)
    ensures var rest := ReturnLine(ready).rest;
            && Valid(rest) && Aligned(rest)
            && (HasReturnedEveryLine(rest) || Live(rest))
            && End(rest) < End(w)
            && rest.file == w.file && rest.chunkSize == w.chunkSize
            && Pending(w) == [ReturnLine(ready).line] + Pending(rest)
  {
    assert End(ready) == End(w);
    assert Pending(ready) == Pending(w);
    ReturnLineIsReference(ready);
    ReturnLineAdvances(ready);
    var pending := Pending(w);
    assert pending == [pending[0]] + pending[1..];
  }

  /** Moving the front of the pending lines to the end of the handed-out
      ones keeps their concatenation. Stated apart from the reading loop,
      whose context makes this step too costly to prove in place. */
  lemma MoveFront(done: seq<Bytes>, x: Bytes, pending: seq<Bytes>)
    ensures (done + [x]) + pending == done + ([x] + pending)
  {
  }

  /** Reads the whole file backwards: read until a line is ready, return it,
      until every line has been returned. The lines come out as the reference
      lines of the file, so they do not depend on the chunk size. */
  method ReadAllLines(file: Bytes, chunkSize: nat) returns (lines: seq<Bytes>)
    requires chunkSize > 0
    ensures lines == AllLines(file)
  {
    var w := Init(file, chunkSize);
    assert file[..End(w)] == file;
    lines := [];
    while !HasReturnedEveryLine(w)
      invariant Valid(w) && Aligned(w)
      invariant w.file == file && w.chunkSize == chunkSize
      invariant HasReturnedEveryLine(w) || Live(w)
      invariant lines + Pending(w) == AllLines(file)
      decreases End(w)
    {
      var ready := ReadUntilYieldable(w);
      ReadAndReturnStep(w, ready);
      var r := ReturnLine(ready);
      MoveFront(lines, r.line, Pending(r.rest));
      lines := lines + [r.line];
      w := r.rest;
    }
  }
}
