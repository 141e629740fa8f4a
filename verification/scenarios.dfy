/** Worked inputs: the lines a backward reader hands out for small files,
    whatever the chunk size. */
module Scenarios {
  import opened Terminators
  import opened BackwardLines

  const One: Bytes := [0x6f, 0x6e, 0x65]
  const Two: Bytes := [0x74, 0x77, 0x6f]
  const Three: Bytes := [0x74, 0x68, 0x72, 0x65, 0x65]
  const X: Bytes := [0x78]
  const Y: Bytes := [0x79]
  const A: Bytes := [0x61]
  const B: Bytes := [0x62]
  const C: Bytes := [0x63]

  /** Three lines separated by "\n", the last one unterminated and not
      empty, come out last first. */
  lemma ThreeLinesShape(a: Bytes, b: Bytes, c: Bytes)
    requires BreakFree(a) && BreakFree(b) && BreakFree(c) && |c| > 0
    ensures AllLines(a + [LF] + b + [LF] + c) == [c, b, a]
  {
    var q := a + [LF];
    var r := q + b + [LF];
    var s := a + [LF] + b + [LF] + c;
    assert LinesOf(q) == [a] by {
      LinesOfFirst(a, [LF]);
    }
    assert LinesOf(r) == [b, a] by {
      LinesOfAppend(q, b, [LF]);
    }
    assert LinesOf(s) == [c, b, a] by {
      assert s == r + c + [];
      LinesOfAppend(r, c, []);
    }
  }

  /** Two lines separated by "\r\n", the last one unterminated and not
      empty, come out last first. */
  lemma CRLFShape(a: Bytes, b: Bytes)
    requires BreakFree(a) && BreakFree(b) && |b| > 0
    ensures AllLines(a + [CR, LF] + b) == [b, a]
  {
    var r := a + [CR, LF];
    LinesOfFirst(a, [CR, LF]);
    LinesOfAppend(r, b, []);
    assert r + b + [] == a + [CR, LF] + b;
  }

  /** Lines ended by "\r\n", "\r" and "\n" in turn come out last first,
      the final terminator making no empty line. */
  lemma MixedShape(a: Bytes, b: Bytes, c: Bytes)
    requires BreakFree(a) && BreakFree(b) && BreakFree(c) && |c| > 0
    ensures AllLines(a + [CR, LF] + b + [CR] + c + [LF]) == [c, b, a]
  {
    var q := a + [CR, LF];
    var r := q + b + [CR];
    var s := a + [CR, LF] + b + [CR] + c + [LF];
    assert LinesOf(q) == [a] by {
      LinesOfFirst(a, [CR, LF]);
    }
    assert LinesOf(r) == [b, a] by {
      LinesOfAppend(q, b, [CR]);
    }
    assert LinesOf(s) == [c, b, a] by {
      assert s == r + c + [LF];
      LinesOfAppend(r, c, [LF]);
    }
  }

  /** "one\ntwo\nthree" comes out as "three", "two", "one". */
  lemma ThreeLines()
    ensures AllLines(One + [LF] + Two + [LF] + Three) == [Three, Two, One]
  {
    ThreeLinesShape(One, Two, Three);
  }

  /** "x\r\ny" comes out as "y", "x": the "\r\n" ends one line. */
  lemma CRLFLines()
    ensures AllLines(X + [CR, LF] + Y) == [Y, X]
  {
    CRLFShape(X, Y);
  }

  /** "a\r\nb\rc\n" comes out as "c", "b", "a": each kind of terminator
      ends one line. */
  lemma MixedLines()
    ensures AllLines(A + [CR, LF] + B + [CR] + C + [LF]) == [C, B, A]
  {
    MixedShape(A, B, C);
  }

  /** A terminator at the very end does not make an empty last line. */
  lemma TerminatedLastLine()
    ensures AllLines(One + [CR, LF]) == [One]
  {
    LinesOfFirst(One, [CR, LF]);
  }

  /** A lone terminator is one empty line; an empty file has none. */
  lemma EmptyLines()
    ensures AllLines([LF]) == [[]]
    ensures AllLines([]) == []
  {
    LinesOfFirst([], [LF]);
    assert [] + [LF] == [LF];
  }

  /** "\r" then "\n" is one terminator. */
  lemma CRLFIsOneTerminator()
    ensures AllLines([CR, LF]) == [[]]
  {
    LinesOfFirst([], [CR, LF]);
    assert [] + [CR, LF] == [CR, LF];
  }

  /** Read one byte at a time, "x\r\ny" still comes out as "y", "x". */
  method ReadCRLFByteByByte() returns (lines: seq<Bytes>)
    ensures lines == [Y, X]
  {
    lines := ReadAllLines(X + [CR, LF] + Y, 1);
    CRLFLines();
  }

  /** Read four bytes at a time, "one\ntwo\nthree" comes out as "three",
      "two", "one". */
  method ReadThreeLinesByFour() returns (lines: seq<Bytes>)
    ensures lines == [Three, Two, One]
  {
    lines := ReadAllLines(One + [LF] + Two + [LF] + Three, 4);
    ThreeLines();
  }
}
