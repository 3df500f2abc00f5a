/**
  Lines, columns and byte offsets: the converters of pkg/lsp/handler.go and pkg/lsp/documents.go,
  against one definition of where a position points.
 */
module Positions {
  import opened Bytes

  // ---------------------------------------------------------------- what a position means

  /** The number of newlines before offset `o`, which is the 0-based line of `o`. */
  function LineOf(s: bytes, o: nat): nat
    requires o <= |s|
  {
    if o == 0 then 0 else LineOf(s, o - 1) + if s[o - 1] == NEWLINE then 1 else 0
  }

  /** The number of bytes between the last newline and offset `o`: the 0-based column of `o`. */
  function ColumnOf(s: bytes, o: nat): (c: nat)
    requires o <= |s|
    ensures c <= o
  {
    if o == 0 || s[o - 1] == NEWLINE then 0 else ColumnOf(s, o - 1) + 1
  }

  predicate AtLineEnd(s: bytes, o: nat)
    requires o <= |s|
  {
    o == |s| || s[o] == NEWLINE
  }

  /** Offset `o` is where (line, character) points; a character past the end of its line means the end. */
  predicate PointsTo(s: bytes, line: nat, character: nat, o: nat) {
    && o <= |s| && LineOf(s, o) == line
    && (ColumnOf(s, o) == character || (ColumnOf(s, o) < character && AtLineEnd(s, o)))
  }

  lemma {:induction false} LineOfMonotone(s: bytes, o: nat, o': nat)
    requires o <= o' <= |s|
    ensures LineOf(s, o) <= LineOf(s, o')
    ensures LineOf(s, o) == LineOf(s, o') ==> ColumnOf(s, o') == ColumnOf(s, o) + (o' - o)
    ensures LineOf(s, o) < LineOf(s, o') ==> ColumnOf(s, o') < o' - o
    decreases o'
  {
    if o < o' { LineOfMonotone(s, o, o' - 1); }
  }

  /** Inside a line the column counts the bytes; nothing but the newline ends a line. */
  lemma SameLine(s: bytes, o: nat, o': nat)
    requires o <= o' <= |s| && forall k :: o <= k < o' ==> s[k] != NEWLINE
    ensures LineOf(s, o') == LineOf(s, o) && ColumnOf(s, o') == ColumnOf(s, o) + (o' - o)
    decreases o'
  {
    if o < o' { SameLine(s, o, o' - 1); }
  }

  /** Positions point to at most one offset, in their own order. */
  lemma PointsToInOrder(s: bytes, line: nat, character: nat, o: nat, line': nat, character': nat, o': nat)
    requires PointsTo(s, line, character, o) && PointsTo(s, line', character', o')
    requires line < line' || (line == line' && character <= character')
    ensures o <= o'
  {
    if o' < o {
      LineOfMonotone(s, o', o);
      if AtLineEnd(s, o') {
        LineOfMonotone(s, o' + 1, o);
      }
    }
  }

  /** A 0-based position of the protocol. */
  datatype Position = Position(line: nat, character: nat)

  predicate AtOrBefore(p: Position, q: Position) {
    p.line < q.line || (p.line == q.line && p.character <= q.character)
  }

  // ---------------------------------------------------------------- offsets to locations and back

  /** `models.Location`: 1-based line and column. */
  datatype Location = Location(line: int, column: int)

  function Clamp(offset: int, max: nat): (o: nat)
    ensures o <= max
  {
    if offset < 0 then 0 else if offset > max then max else offset
  }

  method OffsetToLineCol(content: bytes, offset: int) returns (loc: Location)
    ensures var o := Clamp(offset, |content|); loc == Location(LineOf(content, o) + 1, ColumnOf(content, o) + 1)
  {
    var off := offset;
    if off < 0 {
      off := 0;
    }
    if off > |content| {
      off := |content|;
    }
    var line, col := 1, 1;
    for i := 0 to off
      invariant line == LineOf(content, i) + 1 && col == ColumnOf(content, i) + 1
    {
      if content[i] == NEWLINE {
        line := line + 1;
        col := 1;
      } else {
        col := col + 1;
      }
    }
    return Location(line, col);
  }

  /** The offset just after `n` more newlines, counting from `o`; -1 when there are not so many. */
  function Skip(s: bytes, o: nat, n: nat): (start: int)
    requires o <= |s|
    ensures start == -1 || o <= start <= |s|
    decreases |s| - o
  {
    if n == 0 then o
    else if o == |s| then -1
    else Skip(s, o + 1, if s[o] == NEWLINE then n - 1 else n)
  }

  /** Where the 0-based line starts, -1 when there is no such line. */
  function LineStart(s: bytes, line: nat): (start: int)
    ensures start == -1 || 0 <= start <= |s|
  {
    Skip(s, 0, line)
  }

  /** The converter of the source, -1 outside the document. */
  function LineColToOffsetOf(s: bytes, line: int, col: int): int {
    if line < 1 || col < 1 || LineStart(s, line - 1) == -1 then -1
    else Clamp(LineStart(s, line - 1) + col - 1, |s|)
  }

  method LineColToOffset(content: bytes, line: int, col: int) returns (r: int)
    ensures r == LineColToOffsetOf(content, line, col)
  {
    if line < 1 || col < 1 {
      return -1;
    }
    var off := 0;
    var curLine := 1;
    while off < |content| && curLine < line
      invariant 0 <= off <= |content| && 1 <= curLine <= line
      invariant Skip(content, off, line - curLine) == LineStart(content, line - 1)
    {
      if content[off] == NEWLINE {
        curLine := curLine + 1;
      }
      off := off + 1;
    }
    if curLine != line {
      return -1;
    }
    off := off + col - 1;
    if off > |content| {
      off := |content|;
    }
    return off;
  }

  lemma {:induction false} SkipIsLine(s: bytes, k: nat, n: nat)
    requires k <= |s|
    ensures var start := Skip(s, k, n);
            if LineOf(s, |s|) < LineOf(s, k) + n then start == -1
            else start != -1 && LineOf(s, start) == LineOf(s, k) + n && (n > 0 ==> ColumnOf(s, start) == 0)
    decreases |s| - k
  {
    LineOfMonotone(s, k, |s|);
    if n > 0 && k < |s| {
      SkipIsLine(s, k + 1, if s[k] == NEWLINE then n - 1 else n);
    }
  }

  /** The line of every offset starts where it should: its column before it. */
  lemma LineStartIs(s: bytes, o: nat)
    requires o <= |s|
    ensures LineStart(s, LineOf(s, o)) == o - ColumnOf(s, o)
  {
    var line := LineOf(s, o);
    LineOfMonotone(s, o, |s|);
    SkipIsLine(s, 0, line);
    var start := LineStart(s, line);
    assert start != -1 && LineOf(s, start) == line && ColumnOf(s, start) == 0;
    if start <= o {
      LineOfMonotone(s, start, o);
    } else {
      LineOfMonotone(s, o, start);
    }
  }

  /** Offset to location and back is the identity on every offset of the document. */
  lemma OffsetRoundTrip(s: bytes, o: nat)
    requires o <= |s|
    ensures LineColToOffsetOf(s, LineOf(s, o) + 1, ColumnOf(s, o) + 1) == o
  {
    LineStartIs(s, o);
  }

  /** The end of the line that `o` is on. */
  function LineEnd(s: bytes, o: nat): (e: nat)
    requires o <= |s|
    ensures o <= e <= |s| && AtLineEnd(s, e)
    ensures forall k :: o <= k < e ==> s[k] != NEWLINE
    decreases |s| - o
  {
    if AtLineEnd(s, o) then o else LineEnd(s, o + 1)
  }

  /** Location to offset and back is the identity exactly for columns within their line, or one past it. */
  lemma LocationRoundTripExactly(s: bytes, line: int, col: int)
    ensures var o := LineColToOffsetOf(s, line, col);
            (o != -1 && LineOf(s, o) + 1 == line && ColumnOf(s, o) + 1 == col) <==>
            (line >= 1 && col >= 1 && LineStart(s, line - 1) != -1
             && col - 1 <= LineEnd(s, LineStart(s, line - 1)) - LineStart(s, line - 1))
  {
    if line >= 1 && col >= 1 && LineStart(s, line - 1) != -1 {
      var start: nat := LineStart(s, line - 1);
      var e := LineEnd(s, start);
      SkipIsLine(s, 0, line - 1);
      if start + col - 1 <= e {
        SameLine(s, start, start + col - 1);
      } else {
        var o := LineColToOffsetOf(s, line, col);
        SameLine(s, start, e);
        if e < |s| { LineOfMonotone(s, e + 1, o); }
      }
    }
  }

  // ---------------------------------------------------------------- the line cache

  /** `splitLines`: the text from `start` on, split at its newlines. */
  function Lines(s: bytes, start: nat): (lines: seq<bytes>)
    requires start <= |s|
    ensures lines != []
    decreases |s| - start
  {
    var e := LineEnd(s, start);
    [s[start..e]] + if e == |s| then [] else Lines(s, e + 1)
  }

  /** The lines with a newline between any two. */
  function JoinLines(lines: seq<bytes>): bytes
    requires lines != []
  {
    if |lines| == 1 then lines[0] else lines[0] + ([NEWLINE] + JoinLines(lines[1..]))
  }

  predicate NoNewlines(lines: seq<bytes>) {
    forall n :: 0 <= n < |lines| ==> NEWLINE !in lines[n]
  }

  lemma JoinCons(head: bytes, rest: seq<bytes>)
    requires rest != []
    ensures JoinLines([head] + rest) == head + ([NEWLINE] + JoinLines(rest))
  {
    assert ([head] + rest)[1..] == rest;
  }

  lemma NoNewlinesCons(head: bytes, rest: seq<bytes>)
    requires NEWLINE !in head && NoNewlines(rest)
    ensures NoNewlines([head] + rest)
  {
  }

  lemma LineAndRest(s: bytes, start: nat, e: nat)
    requires start <= e < |s| && s[e] == NEWLINE
    ensures s[start..] == s[start..e] + ([NEWLINE] + s[e + 1..])
  {
  }

  lemma LineIsPlain(s: bytes, start: nat, line: bytes)
    requires start <= |s| && line == s[start..LineEnd(s, start)]
    ensures NEWLINE !in line
  {
  }

  /** The lines hold no newline, and newlines join them to the text from `start` on. */
  predicate IsSplit(s: bytes, start: nat, lines: seq<bytes>) {
    start <= |s| && lines != [] && JoinLines(lines) == s[start..] && NoNewlines(lines)
  }

  lemma SplitCons(s: bytes, start: nat, line: bytes, rest: seq<bytes>)
    requires start <= |s| && LineEnd(s, start) < |s| && line == s[start..LineEnd(s, start)]
    requires IsSplit(s, LineEnd(s, start) + 1, rest)
    ensures IsSplit(s, start, [line] + rest)
  {
    LineIsPlain(s, start, line);
    JoinCons(line, rest);
    NoNewlinesCons(line, rest);
    LineAndRest(s, start, LineEnd(s, start));
  }

  lemma {:induction false} LinesAreSplit(s: bytes, start: nat)
    requires start <= |s|
    ensures IsSplit(s, start, Lines(s, start))
    decreases |s| - start
  {
    var e := LineEnd(s, start);
    if e == |s| {
      LineIsPlain(s, start, s[start..e]);
      assert s[start..e] == s[start..];
    } else {
      LinesAreSplit(s, e + 1);
      SplitCons(s, start, s[start..e], Lines(s, e + 1));
    }
  }

  lemma PlainIsShorter(x: bytes, u: bytes, y: bytes, v: bytes)
    requires NEWLINE !in y && x + u == y + v && (u == [] || u[0] == NEWLINE)
    ensures |y| <= |x|
  {
    if u != [] {
      assert (y + v)[|x|] == (x + u)[|x|] == NEWLINE;
    }
    assert |x + u| == |y + v|;
  }

  /** The first newline separates. */
  lemma HeadsAgree(x: bytes, u: bytes, y: bytes, v: bytes)
    requires NEWLINE !in x && NEWLINE !in y && x + u == y + v
    requires (u == [] || u[0] == NEWLINE) && (v == [] || v[0] == NEWLINE)
    ensures x == y && u == v
  {
    PlainIsShorter(x, u, y, v);
    PlainIsShorter(y, v, x, u);
    assert x == (x + u)[..|x|] && y == (y + v)[..|y|];
    assert u == (x + u)[|x|..] && v == (y + v)[|y|..];
  }

  /** What follows the first line. */
  function AfterFirst(lines: seq<bytes>): bytes
    requires lines != []
  {
    if |lines| == 1 then [] else [NEWLINE] + JoinLines(lines[1..])
  }

  lemma FirstAndAfter(lines: seq<bytes>)
    requires lines != []
    ensures JoinLines(lines) == lines[0] + AfterFirst(lines)
    ensures lines == [lines[0]] + lines[1..]
  {
  }

  lemma {:induction false} JoinInjective(a: seq<bytes>, b: seq<bytes>)
    requires a != [] && b != [] && NoNewlines(a) && NoNewlines(b) && JoinLines(a) == JoinLines(b)
    ensures a == b
    decreases |a|
  {
    FirstAndAfter(a);
    FirstAndAfter(b);
    HeadsAgree(a[0], AfterFirst(a), b[0], AfterFirst(b));
    if |a| > 1 {
      assert AfterFirst(a)[1..] == JoinLines(a[1..]) && AfterFirst(b)[1..] == JoinLines(b[1..]);
      JoinInjective(a[1..], b[1..]);
    }
  }

  /** The split is the one list of lines without newlines that newlines join to the content. */
  lemma LinesExactly(s: bytes, lines: seq<bytes>)
    ensures lines == Lines(s, 0) <==> lines != [] && JoinLines(lines) == s && NoNewlines(lines)
  {
    assert s[0..] == s;
    LinesAreSplit(s, 0);
    if lines != [] && JoinLines(lines) == s && NoNewlines(lines) {
      JoinInjective(lines, Lines(s, 0));
    }
  }

  /** The bytes of the first `n` lines, each with its newline. */
  function Before(lines: seq<bytes>, n: nat): nat
    requires n <= |lines|
  {
    if n == 0 then 0 else Before(lines, n - 1) + |lines[n - 1]| + 1
  }

  function PositionToOffsetOf(lines: seq<bytes>, line: nat, character: nat): nat {
    if line < |lines| then Before(lines, line) + Clamp(character, |lines[line]|)
    else Before(lines, |lines|)
  }

  method PositionToOffset(lines: seq<bytes>, line: nat, character: nat) returns (offset: nat)
    ensures offset == PositionToOffsetOf(lines, line, character)
  {
    offset := 0;
    var i := 0;
    while i < line && i < |lines|
      invariant 0 <= i <= line && i <= |lines| && offset == Before(lines, i)
    {
      offset := offset + |lines[i]| + 1;
      i := i + 1;
    }
    if line < |lines| {
      var lineLen := |lines[line]|;
      if character < lineLen {
        offset := offset + character;
      } else {
        offset := offset + lineLen;
      }
    }
  }

  lemma {:induction false} BeforeCons(head: bytes, tail: seq<bytes>, n: nat)
    requires n <= |tail|
    ensures Before([head] + tail, n + 1) == |head| + 1 + Before(tail, n)
    decreases n
  {
    if n > 0 { BeforeCons(head, tail, n - 1); }
  }

  /** Line `n` of `lines`, counted from `start`, is where the document has it, and is as long. */
  ghost predicate LineFits(s: bytes, start: nat, lines: seq<bytes>, n: nat)
    requires start <= |s| && n < |lines|
  {
    var o := start + Before(lines, n);
    o <= |s| && LineOf(s, o) == LineOf(s, start) + n && ColumnOf(s, o) == 0 && |lines[n]| == LineEnd(s, o) - o
  }

  ghost predicate Fits(s: bytes, start: nat, lines: seq<bytes>) {
    && start <= |s|
    && |lines| == LineOf(s, |s|) - LineOf(s, start) + 1
    && Before(lines, |lines|) == |s| - start + 1
    && forall n: nat :: n < |lines| ==> LineFits(s, start, lines, n)
  }

  lemma FitsOne(s: bytes, start: nat, line: bytes)
    requires start <= |s| && ColumnOf(s, start) == 0 && LineEnd(s, start) == |s| && |line| == |s| - start
    ensures Fits(s, start, [line])
  {
    SameLine(s, start, |s|);
    assert Before([line], 0) == 0;
  }

  lemma FitsCons(s: bytes, start: nat, head: bytes, rest: seq<bytes>)
    requires start <= |s| && ColumnOf(s, start) == 0 && |head| == LineEnd(s, start) - start && LineEnd(s, start) < |s|
    requires Fits(s, LineEnd(s, start) + 1, rest)
    ensures Fits(s, start, [head] + rest)
  {
    var e, lines := LineEnd(s, start), [head] + rest;
    SameLine(s, start, e);
    BeforeCons(head, rest, |rest|);
    forall n: nat | n < |lines|
      ensures LineFits(s, start, lines, n)
    {
      if n > 0 {
        BeforeCons(head, rest, n - 1);
        assert LineFits(s, e + 1, rest, n - 1);
      }
    }
  }

  /** The lines of the text are where the text has them. */
  lemma {:induction false} LinesFit(s: bytes, start: nat)
    requires start <= |s| && ColumnOf(s, start) == 0
    ensures Fits(s, start, Lines(s, start))
    decreases |s| - start
  {
    var e := LineEnd(s, start);
    if e == |s| {
      FitsOne(s, start, s[start..e]);
      assert Lines(s, start) == [s[start..e]];
    } else {
      LinesFit(s, e + 1);
      FitsCons(s, start, s[start..e], Lines(s, e + 1));
    }
  }

  lemma FittingPositionIsOffset(s: bytes, lines: seq<bytes>, line: nat, character: nat)
    requires Fits(s, 0, lines)
    ensures var o := PositionToOffsetOf(lines, line, character);
            if line < |lines| then PointsTo(s, line, character, o) else o == |s| + 1
  {
    if line < |lines| {
      assert LineFits(s, 0, lines, line);
      var start := Before(lines, line);
      SameLine(s, start, start + Clamp(character, |lines[line]|));
    }
  }

  /**
    On a line of the document the line cache finds exactly the offset the position points to; past
    the last line it gives an offset one beyond the end.
   */
  lemma PositionIsOffset(s: bytes, line: nat, character: nat)
    ensures var o := PositionToOffsetOf(Lines(s, 0), line, character);
            if line < |Lines(s, 0)| then PointsTo(s, line, character, o) else o == |s| + 1
  {
    LinesFit(s, 0);
    FittingPositionIsOffset(s, Lines(s, 0), line, character);
  }

  lemma FittingConvertersAgree(s: bytes, lines: seq<bytes>, line: nat, character: nat)
    requires Fits(s, 0, lines)
    ensures LineColToOffsetOf(s, line + 1, character + 1) == PositionToOffsetOf(lines, line, character) <==>
            line < |lines| && (character <= |lines[line]| || line == |lines| - 1)
  {
    if line < |lines| {
      assert LineFits(s, 0, lines, line);
      LineStartIs(s, Before(lines, line));
      assert Before(lines, line + 1) == Before(lines, line) + |lines[line]| + 1;
      if line + 1 < |lines| { assert LineFits(s, 0, lines, line + 1); }
    } else {
      SkipIsLine(s, 0, line);
    }
  }

  /** The two converters agree exactly on the columns of a line, and anywhere on the last one. */
  lemma ConvertersAgreeExactly(s: bytes, line: nat, character: nat)
    ensures var lines := Lines(s, 0);
            LineColToOffsetOf(s, line + 1, character + 1) == PositionToOffsetOf(lines, line, character) <==>
            line < |lines| && (character <= |lines[line]| || line == |lines| - 1)
  {
    LinesFit(s, 0);
    FittingConvertersAgree(s, Lines(s, 0), line, character);
  }
}
