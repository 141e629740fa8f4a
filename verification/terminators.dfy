/** Byte-sequence helpers of the backward line buffer: searching for, and
    stripping, line terminators.

    The file is a sequence of bytes. The terminators are the UTF-8 (equally
    ASCII) encodings of "\r\n", "\n" and "\r", in that order. */
module Terminators {

  type Byte = bv8
  type Bytes = seq<Byte>

  const CR: Byte := 13
  const LF: Byte := 10

  /** The encoded terminators, in declaration order. The list is already
      ordered longest first, and a stable sort by decreasing length leaves
      it unchanged, so stripping may try the terminators in this order. */
  const NewLineBytes: seq<Bytes> := [[CR, LF], [LF], [CR]]

  /** One of the terminators, as opposed to the missing one after an
      unterminated last line. */
  predicate IsNewLine(e: Bytes) {
    e in NewLineBytes
  }

  /** A byte that ends a line on its own or starts "\r\n". */
  predicate IsBreak(b: Byte) {
    b == CR || b == LF
  }

  /** No byte of `s` is a terminator byte. */
  predicate BreakFree(s: Bytes) {
    forall j :: 0 <= j < |s| ==> !IsBreak(s[j])
  }

  /** `sub` occurs in `s` starting at index `i`. */
  predicate OccursAt(s: Bytes, sub: Bytes, i: int) {
    0 <= i && i + |sub| <= |s| && s[i..i + |sub|] == sub
  }

  /** Some terminator starts at index `i` of `s`. */
  predicate TerminatorAt(s: Bytes, i: int) {
    exists k :: 0 <= k < |NewLineBytes| && OccursAt(s, NewLineBytes[k], i)
  }

  /** `s` ends with `suffix` (bytes.endswith). */
  predicate EndsWith(s: Bytes, suffix: Bytes) {
    |suffix| <= |s| && s[|s| - |suffix|..] == suffix
  }

  // ---------------------------------------------------------------------
  // bytes.find and bytes.rfind
  // ---------------------------------------------------------------------

  /** The lowest index at or after `k` where `sub` occurs in `s`, or -1. */
  function FindFrom(s: Bytes, sub: Bytes, k: nat): (r: int)
    ensures r == -1 || (k <= r && OccursAt(s, sub, r))
    decreases |s| - k
  {
    if k + |sub| > |s| then -1
    else if OccursAt(s, sub, k) then k
    else FindFrom(s, sub, k + 1)
  }

  /** No occurrence at or after `k` comes before the one `FindFrom` finds. */
  lemma {:induction false} FindFromIsFirst(s: Bytes, sub: Bytes, k: nat)
    ensures forall j :: k <= j && (FindFrom(s, sub, k) == -1 || j < FindFrom(s, sub, k)) ==> !OccursAt(s, sub, j)
    decreases |s| - k
  {
    if k + |sub| <= |s| && !OccursAt(s, sub, k) {
      FindFromIsFirst(s, sub, k + 1);
    }
  }

  /** bytes.find: the lowest index where `sub` occurs in `s`, or -1. */
  function Find(s: Bytes, sub: Bytes): (r: int)
    ensures r == -1 || (0 <= r && OccursAt(s, sub, r))
  {
    FindFrom(s, sub, 0)
  }

  /** `Find` is -1 exactly when `sub` does not occur; otherwise no occurrence
      comes before the one it finds. */
  lemma FindSpec(s: Bytes, sub: Bytes)
    ensures Find(s, sub) == -1 <==> forall j :: !OccursAt(s, sub, j)
    ensures forall j :: 0 <= j < Find(s, sub) ==> !OccursAt(s, sub, j)
  {
    FindFromIsFirst(s, sub, 0);
  }

  /** The highest index at or below `k` where `sub` occurs in `s`, or -1. */
  function RFindAtOrBelow(s: Bytes, sub: Bytes, k: int): (r: int)
    ensures r == -1 || (0 <= r <= k && OccursAt(s, sub, r))
    decreases k
  {
    if k < 0 then -1
    else if OccursAt(s, sub, k) then k
    else RFindAtOrBelow(s, sub, k - 1)
  }

  /** No occurrence at or below `k` comes after the one `RFindAtOrBelow` finds. */
  lemma {:induction false} RFindAtOrBelowIsLast(s: Bytes, sub: Bytes, k: int)
    ensures forall j :: j <= k && RFindAtOrBelow(s, sub, k) < j ==> !OccursAt(s, sub, j)
    decreases k
  {
    if k >= 0 && !OccursAt(s, sub, k) {
      RFindAtOrBelowIsLast(s, sub, k - 1);
    }
  }

  /** bytes.rfind: the highest index where `sub` occurs in `s`, or -1. */
  function RFind(s: Bytes, sub: Bytes): (r: int)
    ensures r == -1 || (0 <= r && OccursAt(s, sub, r))
  {
    RFindAtOrBelow(s, sub, |s| - |sub|)
  }

  /** `RFind` is -1 exactly when `sub` does not occur; otherwise no
      occurrence comes after the one it finds. */
  lemma RFindSpec(s: Bytes, sub: Bytes)
    ensures RFind(s, sub) == -1 <==> forall j :: !OccursAt(s, sub, j)
    ensures forall j :: RFind(s, sub) < j ==> !OccursAt(s, sub, j)
  {
    RFindAtOrBelowIsLast(s, sub, |s| - |sub|);
  }

  // ---------------------------------------------------------------------
  // _remove_trailing_new_line
  // ---------------------------------------------------------------------

  /** Strips the first of `ns` that `line` ends with, if any. */
  function StripFirstEnding(line: Bytes, ns: seq<Bytes>): (r: Bytes)
    ensures r <= line
  {
    if |ns| == 0 then line
    else if EndsWith(line, ns[0]) then line[..|line| - |ns[0]|]
    else StripFirstEnding(line, ns[1..])
  }

  /** The first of `ns` that `line` ends with is the one stripped; with
      none, nothing is. */
  lemma {:induction false} StripFirstEndingSpec(line: Bytes, ns: seq<Bytes>)
    ensures (forall k :: 0 <= k < |ns| ==> !EndsWith(line, ns[k])) ==> StripFirstEnding(line, ns) == line
    ensures forall k :: 0 <= k < |ns| && EndsWith(line, ns[k]) && (forall m :: 0 <= m < k ==> !EndsWith(line, ns[m]))
              ==> |StripFirstEnding(line, ns)| == |line| - |ns[k]|
  {
    if |ns| > 0 && !EndsWith(line, ns[0]) {
      StripFirstEndingSpec(line, ns[1..]);
      assert forall k :: 1 <= k < |ns| ==> ns[k] == ns[1..][k - 1];
    }
  }

  /** Inserts `n` before the first element shorter than it: the insertion
      step of a stable sort by decreasing length. */
  function InsertByLength(n: Bytes, ns: seq<Bytes>): (r: seq<Bytes>)
    ensures |r| == |ns| + 1
    ensures multiset(r) == multiset(ns) + multiset{n}
  {
    if |ns| == 0 || |ns[0]| < |n| then [n] + ns
    else
      assert ns == [ns[0]] + ns[1..];
      [ns[0]] + InsertByLength(n, ns[1..])
  }

  /** Lengths never increase along `ns`. */
  predicate LongestFirst(ns: seq<Bytes>) {
    forall i, j :: 0 <= i < j < |ns| ==> |ns[i]| >= |ns[j]|
  }

  /** `sorted(ns, key=len, reverse=True)`: a stable sort by decreasing length. */
  function SortByLength(ns: seq<Bytes>): (r: seq<Bytes>)
    ensures multiset(r) == multiset(ns)
  {
    if |ns| == 0 then []
    else
      assert ns == ns[..|ns| - 1] + [ns[|ns| - 1]];
      InsertByLength(ns[|ns| - 1], SortByLength(ns[..|ns| - 1]))
  }

  /** Inserting into a longest-first sequence keeps it longest first. */
  lemma {:induction false} InsertByLengthOrdered(n: Bytes, ns: seq<Bytes>)
    requires LongestFirst(ns)
    ensures LongestFirst(InsertByLength(n, ns))
  {
    if |ns| > 0 && |ns[0]| >= |n| {
      InsertByLengthOrdered(n, ns[1..]);
      var r := InsertByLength(n, ns[1..]);
      assert forall x :: x in multiset(r) ==> x == n || x in multiset(ns[1..]);
      forall i | 0 <= i < |r|
        ensures |ns[0]| >= |r[i]|
      {
        assert r[i] in multiset(r);
        if r[i] != n {
          assert r[i] in multiset(ns[1..]);
          var k :| 0 <= k < |ns[1..]| && ns[1..][k] == r[i];
          assert ns[k + 1] == r[i];
        }
      }
    }
  }

  /** The sort yields a longest-first sequence. */
  lemma {:induction false} SortByLengthOrdered(ns: seq<Bytes>)
    ensures LongestFirst(SortByLength(ns))
  {
    if |ns| > 0 {
      SortByLengthOrdered(ns[..|ns| - 1]);
      InsertByLengthOrdered(ns[|ns| - 1], SortByLength(ns[..|ns| - 1]));
    }
  }

  /** The terminators are already longest first, and the stable sort keeps
      "\n" ahead of "\r", so the sort leaves them as they are. */
  lemma SortKeepsNewLineBytes()
    ensures SortByLength(NewLineBytes) == NewLineBytes
  {
    var ns := NewLineBytes;
    assert ns[..0] == [] && ns[..1] == [[CR, LF]] && ns[..2] == [[CR, LF], [LF]];
    assert ns[..1][..0] == [] && ns[..2][..1] == [[CR, LF]] && ns[..3] == ns;
    assert SortByLength(ns[..1]) == [[CR, LF]];
    assert InsertByLength([LF], [[CR, LF]]) == [[CR, LF], [LF]];
    assert SortByLength(ns[..2]) == [[CR, LF], [LF]];
    assert InsertByLength([CR], [[LF]]) == [[LF], [CR]];
    assert InsertByLength([CR], [[CR, LF], [LF]]) == ns;
  }

  /** `s` ends with the two bytes "\r\n". */
  predicate EndsWithCRLF(s: Bytes) {
    |s| >= 2 && s[|s| - 2] == CR && s[|s| - 1] == LF
  }

  /** Removes one trailing terminator, trying the longest first so that
      "\r\n" goes as a unit: two bytes go for "\r\n", one for a lone "\n"
      or "\r", none otherwise. */
  function RemoveTrailingNewLine(line: Bytes): (r: Bytes)
    ensures |r| <= |line|
    ensures EndsWithCRLF(line) ==> |r| == |line| - 2
    ensures !EndsWithCRLF(line) && |line| > 0 && IsBreak(line[|line| - 1]) ==> |r| == |line| - 1
    ensures |line| == 0 || !IsBreak(line[|line| - 1]) ==> |r| == |line|
  {
    StripNewLineBytes(line);
    StripFirstEnding(line, NewLineBytes)
  }

  /** `RemoveTrailingNewLine` tries the terminators in the order of the
      stable longest-first sort of the list. */
  lemma RemoveTrailingNewLineSorted(line: Bytes)
    ensures RemoveTrailingNewLine(line) == StripFirstEnding(line, SortByLength(NewLineBytes))
    ensures LongestFirst(SortByLength(NewLineBytes))
  {
    SortKeepsNewLineBytes();
    SortByLengthOrdered(NewLineBytes);
  }

  /** The suffix tests `StripFirstEnding` makes on this terminator list. */
  lemma StripNewLineBytes(line: Bytes)
    ensures var r := StripFirstEnding(line, NewLineBytes);
            && r <= line
            && (EndsWithCRLF(line) ==> |r| == |line| - 2)
            && (!EndsWithCRLF(line) && |line| > 0 && IsBreak(line[|line| - 1]) ==> |r| == |line| - 1)
            && (|line| == 0 || !IsBreak(line[|line| - 1]) ==> r == line)
  {
    if EndsWithCRLF(line) {
      StripWhenCRLF(line);
    } else if |line| > 0 && line[|line| - 1] == LF {
      StripWhenLF(line);
    } else if |line| > 0 && line[|line| - 1] == CR {
      StripWhenCR(line);
    } else {
      StripWhenNone(line);
    }
  }

  /** A trailing "\r\n" is stripped as a unit. */
  lemma StripWhenCRLF(line: Bytes)
    requires EndsWithCRLF(line)
    ensures StripFirstEnding(line, NewLineBytes) == line[..|line| - 2]
  {
    EndsWithTwo(line);
  }

  /** A lone trailing "\n" is stripped. */
  lemma StripWhenLF(line: Bytes)
    requires !EndsWithCRLF(line) && |line| > 0 && line[|line| - 1] == LF
    ensures StripFirstEnding(line, NewLineBytes) == line[..|line| - 1]
  {
    var ns := NewLineBytes;
    EndsWithTwo(line);
    EndsWithOne(line, LF);
    assert ns[1..] == [[LF], [CR]];
  }

  /** A trailing "\r" is stripped. */
  lemma StripWhenCR(line: Bytes)
    requires |line| > 0 && line[|line| - 1] == CR
    ensures StripFirstEnding(line, NewLineBytes) == line[..|line| - 1]
  {
    var ns := NewLineBytes;
    EndsWithTwo(line);
    EndsWithOne(line, LF);
    EndsWithOne(line, CR);
    assert ns[1..] == [[LF], [CR]] && ns[1..][1..] == [[CR]];
    assert StripFirstEnding(line, ns) == StripFirstEnding(line, ns[1..]);
  }

  /** A line that ends with no break byte is kept. */
  lemma StripWhenNone(line: Bytes)
    requires |line| == 0 || !IsBreak(line[|line| - 1])
    ensures StripFirstEnding(line, NewLineBytes) == line
  {
    var ns := NewLineBytes;
    EndsWithTwo(line);
    EndsWithOne(line, LF);
    EndsWithOne(line, CR);
    assert ns[1..] == [[LF], [CR]] && ns[1..][1..] == [[CR]] && ns[1..][1..][1..] == [];
    assert StripFirstEnding(line, ns) == StripFirstEnding(line, ns[1..]);
    assert StripFirstEnding(line, ns[1..]) == StripFirstEnding(line, ns[1..][1..]);
  }

  /** Stripping keeps a prefix of the line. */
  lemma RemoveTrailingNewLineIsPrefix(line: Bytes)
    ensures RemoveTrailingNewLine(line) == line[..|RemoveTrailingNewLine(line)|]
  {
    StripNewLineBytes(line);
  }

  /** The terminator `RemoveTrailingNewLine` strips, or the empty sequence. */
  function TrailingNewLine(line: Bytes): (r: Bytes)
    ensures r == [] || IsNewLine(r)
  {
    var n := |RemoveTrailingNewLine(line)|;
    assert EndsWithCRLF(line) ==> line[n..] == [CR, LF];
    assert line[n..] == [] || line[n..] == NewLineBytes[0]
        || line[n..] == NewLineBytes[1] || line[n..] == NewLineBytes[2];
    line[n..]
  }

  /** The stripped line and the stripped terminator make up the line. */
  lemma TrailingNewLineRebuilds(line: Bytes)
    ensures RemoveTrailingNewLine(line) + TrailingNewLine(line) == line
  {
    RemoveTrailingNewLineIsPrefix(line);
    var t := RemoveTrailingNewLine(line);
    assert line[..|t|] + line[|t|..] == line;
  }

  // ---------------------------------------------------------------------
  // _find_furthest_new_line
  // ---------------------------------------------------------------------

  /** The maximum over `ns` of the rfind of each in `buf`. */
  function FurthestOf(buf: Bytes, ns: seq<Bytes>): (r: int)
    requires |ns| > 0
    ensures r == -1 || exists k :: 0 <= k < |ns| && OccursAt(buf, ns[k], r)
  {
    var here := RFind(buf, ns[0]);
    if |ns| == 1 then here
    else
      var rest := FurthestOf(buf, ns[1..]);
      assert forall k :: 1 <= k < |ns| ==> ns[k] == ns[1..][k - 1];
      if here < rest then rest else here
  }

  /** `FurthestOf` is -1 exactly when none of `ns` occurs; otherwise none
      occurs further on. */
  lemma {:induction false} FurthestOfSpec(buf: Bytes, ns: seq<Bytes>)
    requires |ns| > 0
    ensures FurthestOf(buf, ns) >= -1
    ensures FurthestOf(buf, ns) == -1 <==> forall k, j :: 0 <= k < |ns| ==> !OccursAt(buf, ns[k], j)
    ensures forall k, j :: 0 <= k < |ns| && FurthestOf(buf, ns) < j ==> !OccursAt(buf, ns[k], j)
  {
    RFindSpec(buf, ns[0]);
    if |ns| > 1 {
      FurthestOfSpec(buf, ns[1..]);
      assert forall k :: 1 <= k < |ns| ==> ns[k] == ns[1..][k - 1];
    }
  }

  /** Reference definition: the index of the last break byte of `s`, or -1. */
  function LastBreak(s: Bytes): (r: int)
    ensures -1 <= r < |s|
    ensures r != -1 ==> IsBreak(s[r])
  {
    if |s| == 0 then -1
    else if IsBreak(s[|s| - 1]) then |s| - 1
    else LastBreak(s[..|s| - 1])
  }

  /** No break byte follows the last one. */
  lemma {:induction false} LastBreakIsLast(s: Bytes)
    ensures forall j :: LastBreak(s) < j < |s| ==> !IsBreak(s[j])
    decreases |s|
  {
    if |s| > 0 && !IsBreak(s[|s| - 1]) {
      LastBreakIsLast(s[..|s| - 1]);
      assert forall j :: 0 <= j < |s| - 1 ==> s[..|s| - 1][j] == s[j];
    }
  }

  /** A break byte with none after it is the last break byte. */
  lemma LastBreakUnique(s: Bytes, i: int)
    requires 0 <= i < |s| && IsBreak(s[i])
    requires forall j :: i < j < |s| ==> !IsBreak(s[j])
    ensures LastBreak(s) == i
  {
    LastBreakIsLast(s);
  }

  /** A byte sequence has no break byte exactly when it has no last one. */
  lemma BreakFreeIffNoLastBreak(s: Bytes)
    ensures BreakFree(s) <==> LastBreak(s) == -1
  {
    LastBreakIsLast(s);
  }

  /** The index of the rightmost terminator start in `buf`, or -1. For this
      terminator set that is the last break byte. */
  function FindFurthestNewLine(buf: Bytes): (r: int)
    ensures r == LastBreak(buf)
  {
    FurthestOfIsLastBreak(buf);
    FurthestOf(buf, NewLineBytes)
  }

  /** The maximum of the rfinds is the last break byte. */
  lemma FurthestOfIsLastBreak(buf: Bytes)
    ensures FurthestOf(buf, NewLineBytes) == LastBreak(buf)
  {
    var f, l := FurthestOf(buf, NewLineBytes), LastBreak(buf);
    FurthestOfSpec(buf, NewLineBytes);
    NoTerminatorIffNoOccurrence(buf);
    LastBreakIsLast(buf);
    if f != -1 {
      assert TerminatorAt(buf, f);
      TerminatorAtIffBreak(buf, f);
    }
    if l != -1 {
      TerminatorAtIffBreak(buf, l);
    }
  }

  /** `FindFurthestNewLine` is -1 exactly when no terminator occurs; otherwise
      a terminator starts there and none starts further on. */
  lemma FindFurthestNewLineSpec(buf: Bytes)
    ensures FindFurthestNewLine(buf) == -1 <==> forall j :: !TerminatorAt(buf, j)
    ensures FindFurthestNewLine(buf) != -1 ==>
              0 <= FindFurthestNewLine(buf) < |buf| && TerminatorAt(buf, FindFurthestNewLine(buf))
    ensures forall j :: FindFurthestNewLine(buf) < j ==> !TerminatorAt(buf, j)
  {
    LastBreakIsLast(buf);
    forall j
      ensures TerminatorAt(buf, j) <==> 0 <= j < |buf| && IsBreak(buf[j])
    {
      TerminatorAtIffBreak(buf, j);
    }
  }

  // ---------------------------------------------------------------------
  // _is_partially_read_new_line
  // ---------------------------------------------------------------------

  /** Some terminator of `ns` has its first occurrence of `b` at index 1 or later. */
  function AnyContinuation(b: Bytes, ns: seq<Bytes>): bool {
    if |ns| == 0 then false
    else Find(ns[0], b) >= 1 || AnyContinuation(b, ns[1..])
  }

  /** `AnyContinuation` is Python's `any` over the terminators. */
  lemma {:induction false} AnyContinuationSpec(b: Bytes, ns: seq<Bytes>)
    ensures AnyContinuation(b, ns) <==> exists k :: 0 <= k < |ns| && Find(ns[k], b) >= 1
  {
    if |ns| > 0 {
      AnyContinuationSpec(b, ns[1..]);
      assert forall k :: 1 <= k < |ns| ==> ns[k] == ns[1..][k - 1];
    }
  }

  /** `b` is a byte that can only continue a terminator, never start one. */
  function IsPartiallyReadNewLine(b: Bytes): (r: bool)
    ensures r <==> b == [LF]
  {
    AnyContinuationIsLF(b);
    AnyContinuation(b, NewLineBytes)
  }

  // ---------------------------------------------------------------------
  // Lemmas
  // ---------------------------------------------------------------------

  /** For this terminator set a terminator starts exactly at the break bytes. */
  lemma TerminatorAtIffBreak(s: Bytes, i: int)
    ensures TerminatorAt(s, i) <==> 0 <= i < |s| && IsBreak(s[i])
  {
    if 0 <= i < |s| && s[i] == LF {
      assert s[i..i + 1] == [LF];
      assert OccursAt(s, NewLineBytes[1], i);
    } else if 0 <= i < |s| && s[i] == CR {
      assert s[i..i + 1] == [CR];
      assert OccursAt(s, NewLineBytes[2], i);
    }
    if TerminatorAt(s, i) {
      var k :| 0 <= k < |NewLineBytes| && OccursAt(s, NewLineBytes[k], i);
      assert s[i..i + |NewLineBytes[k]|][0] == s[i];
    }
  }

  /** No terminator starts anywhere exactly when none of them occurs. */
  lemma NoTerminatorIffNoOccurrence(buf: Bytes)
    ensures (forall j :: !TerminatorAt(buf, j))
       <==> (forall k, j :: 0 <= k < |NewLineBytes| ==> !OccursAt(buf, NewLineBytes[k], j))
  {
    if forall j :: !TerminatorAt(buf, j) {
      forall k, j | 0 <= k < |NewLineBytes|
        ensures !OccursAt(buf, NewLineBytes[k], j)
      {
        assert !TerminatorAt(buf, j);
      }
    }
  }

  /** A one-byte suffix test is a test of the last byte. */
  lemma EndsWithOne(line: Bytes, b: Byte)
    ensures EndsWith(line, [b]) <==> |line| > 0 && line[|line| - 1] == b
  {
    if |line| > 0 && line[|line| - 1] == b {
      assert line[|line| - 1..] == [b];
    }
  }

  /** A two-byte suffix test is a test of the last two bytes. */
  lemma EndsWithTwo(line: Bytes)
    ensures EndsWith(line, [CR, LF]) <==> EndsWithCRLF(line)
  {
    if EndsWithCRLF(line) {
      assert line[|line| - 2..] == [CR, LF];
    }
    if EndsWith(line, [CR, LF]) {
      assert line[|line| - 2..][0] == CR && line[|line| - 2..][1] == LF;
    }
  }

  /** Only LF is a continuation byte: CR starts "\r\n" and "\r", LF alone is "\n". */
  lemma AnyContinuationIsLF(b: Bytes)
    ensures AnyContinuation(b, NewLineBytes) <==> b == [LF]
  {
    var crlf, lf, cr := NewLineBytes[0], NewLineBytes[1], NewLineBytes[2];
    AnyContinuationSpec(b, NewLineBytes);
    if b == [LF] {
      FindSpec(crlf, b);
      assert crlf[0..1] == [CR] && crlf[1..2] == [LF];
      assert !OccursAt(crlf, b, 0) && OccursAt(crlf, b, 1);
      assert Find(crlf, b) == 1;
    } else {
      NotContinuedBy(crlf, b);
      NotContinuedBy(lf, b);
      NotContinuedBy(cr, b);
    }
  }

  /** Only an LF occurs past the first byte of a terminator. */
  lemma NotContinuedBy(n: Bytes, b: Bytes)
    requires IsNewLine(n)
    requires b != [LF]
    ensures Find(n, b) < 1
  {
    FindSpec(n, b);
    assert [CR, LF][1..2] == [LF];
    if |b| == 0 {
      assert OccursAt(n, b, 0);
    }
  }
}
