/** The ranges of the document outline: `extractStatementSymbol` of pkg/lsp/handler.go and its helpers. */
module Outline {
  import opened Bytes
  import opened Options
  import opened Positions

  const NO_LOCATION := Location(0, 0)

  predicate LocBefore(a: Location, b: Location) {
    a != NO_LOCATION && b != NO_LOCATION && (a.line < b.line || (a.line == b.line && a.column < b.column))
  }

  /** The location one character before `loc`. */
  function StepBack(loc: Location, lines: seq<bytes>): Location {
    if loc.column > 1 then Location(loc.line, loc.column - 1)
    else if loc.line > 1 then
      var prev := loc.line - 1;
      Location(prev, if prev - 1 < |lines| then |lines[prev - 1]| + 1 else 1)
    else loc
  }

  /** `strings.IndexByte`, counted from `from` on. */
  function IndexOf(s: bytes, b: byte, from: nat): (i: int)
    requires from <= |s|
    ensures i == -1 || (from <= i < |s| && s[i] == b)
    ensures forall k :: from <= k < (if i == -1 then |s| else i) ==> s[k] != b
    decreases |s| - from
  {
    if from == |s| then -1 else if s[from] == b then from else IndexOf(s, b, from + 1)
  }

  function LocationOf(s: bytes, offset: int): Location {
    var o := Clamp(offset, |s|);
    Location(LineOf(s, o) + 1, ColumnOf(s, o) + 1)
  }

  /** The location after the next semicolon, or the end of the document. */
  function SemicolonOrEOF(start: Location, content: bytes, lines: seq<bytes>): Location {
    var o := LineColToOffsetOf(content, start.line, start.column);
    var idx := IndexOf(content, SEMICOLON, if o < 0 then 0 else o);
    if idx >= 0 then LocationOf(content, idx + 1)
    else if lines == [] then Location(1, 1)
    else Location(|lines|, |lines[|lines| - 1]| + 1)
  }

  // ---------------------------------------------------------------- what the walk over a statement finds

  /** `earliestChildLocation`, for the positions of the nodes in the order of the walk. */
  function Earliest(nodes: seq<Location>): Location {
    if nodes == [] then NO_LOCATION
    else
      var (best, loc) := (Earliest(nodes[..|nodes| - 1]), nodes[|nodes| - 1]);
      if loc != NO_LOCATION && (best == NO_LOCATION || LocBefore(loc, best)) then loc else best
  }

  /** The walk of `statementEndLocation` for the latest position. */
  function Latest(nodes: seq<Location>): Location {
    if nodes == [] then NO_LOCATION
    else
      var (latest, loc) := (Latest(nodes[..|nodes| - 1]), nodes[|nodes| - 1]);
      if loc != NO_LOCATION && LocBefore(latest, loc) then loc else latest
  }

  /** The first walk finds a position that no other precedes, and none only when no node has one. */
  lemma {:induction false} EarliestIsFirst(nodes: seq<Location>)
    ensures Earliest(nodes) != NO_LOCATION ==> Earliest(nodes) in nodes
    ensures forall loc :: loc in nodes && loc != NO_LOCATION ==>
              Earliest(nodes) != NO_LOCATION && !LocBefore(loc, Earliest(nodes))
    decreases |nodes|
  {
    if nodes != [] {
      var n := |nodes| - 1;
      EarliestIsFirst(nodes[..n]);
      assert nodes == nodes[..n] + [nodes[n]];
    }
  }

  /** The second walk finds nothing: no position comes after the unset one that it starts from. */
  lemma {:induction false} LatestIsNeverFound(nodes: seq<Location>)
    ensures Latest(nodes) == NO_LOCATION
    decreases |nodes|
  {
    if nodes != [] { LatestIsNeverFound(nodes[..|nodes| - 1]); }
  }

  /** `statementEndLocation` */
  function StatementEnd(nodes: seq<Location>, start: Location, content: bytes, lines: seq<bytes>): Location {
    var latest := Latest(nodes);
    if latest == NO_LOCATION || LocBefore(latest, start) then SemicolonOrEOF(start, content, lines)
    else if 0 <= latest.line - 1 < |lines| then Location(latest.line, |lines[latest.line - 1]| + 1)
    else latest
  }

  /** The end of the last line is the end of the document. */
  lemma LastLineEnds(content: bytes)
    ensures var lines := Lines(content, 0); LineColToOffsetOf(content, |lines|, |lines[|lines| - 1]| + 1) == |content|
  {
    var lines := Lines(content, 0);
    var n := |lines| - 1;
    LinesFit(content, 0);
    ConvertersAgreeExactly(content, n, |lines[n]|);
    assert Before(lines, n + 1) == Before(lines, n) + |lines[n]| + 1;
  }

  lemma InDocumentHasOffset(loc: Location, content: bytes, lines: seq<bytes>)
    requires Fits(content, 0, lines) && InDocument(loc, lines)
    ensures 0 <= LineColToOffsetOf(content, loc.line, loc.column) <= |content|
  {
    var line: nat, character: nat := loc.line - 1, loc.column - 1;
    FittingPositionIsOffset(content, lines, line, character);
    FittingConvertersAgree(content, lines, line, character);
  }

  /** Offset `e` is just after the first semicolon at or after `o`, or is the end when there is none. */
  predicate AfterSemicolon(s: bytes, o: int, e: int) {
    && 0 <= o <= e <= |s|
    && if o < e && s[e - 1] == 59 then forall k :: o <= k < e - 1 ==> s[k] != 59
       else e == |s| && forall k :: o <= k < e ==> s[k] != 59
  }

  lemma SemicolonOrEOFEnds(start: Location, content: bytes, lines: seq<bytes>)
    requires Fits(content, 0, lines) && InDocument(start, lines)
    requires LineColToOffsetOf(content, |lines|, |lines[|lines| - 1]| + 1) == |content|
    ensures var end := SemicolonOrEOF(start, content, lines);
            AfterSemicolon(
              content,
              LineColToOffsetOf(content, start.line, start.column), LineColToOffsetOf(content, end.line, end.column))
  {
    InDocumentHasOffset(start, content, lines);
    var idx := IndexOf(content, SEMICOLON, LineColToOffsetOf(content, start.line, start.column));
    if idx >= 0 { OffsetRoundTrip(content, idx + 1); }
  }

  /**
    So a statement that starts in the document always ends just after the next semicolon, whatever
    that semicolon is part of, or at the end of the document when there is none.
   */
  lemma EndsAfterSemicolon(nodes: seq<Location>, start: Location, content: bytes)
    requires InDocument(start, Lines(content, 0))
    ensures var end := StatementEnd(nodes, start, content, Lines(content, 0));
            AfterSemicolon(
              content,
              LineColToOffsetOf(content, start.line, start.column), LineColToOffsetOf(content, end.line, end.column))
  {
    LatestIsNeverFound(nodes);
    LinesFit(content, 0);
    LastLineEnds(content);
    SemicolonOrEOFEnds(start, content, Lines(content, 0));
  }

  // ---------------------------------------------------------------- ranges

  function NotNegative(n: int): nat {
    if n < 0 then 0 else n
  }

  datatype Range = Range(start: Position, end: Position)

  /** To 0-based, clamped to the length of its line. */
  function ToPosition(loc: Location, lines: seq<bytes>): Position {
    var (line, character) := (NotNegative(loc.line - 1), NotNegative(loc.column - 1));
    Position(line, if line < |lines| && character > |lines[line]| then |lines[line]| else character)
  }

  /** What the outline knows of a statement: its declared start, if its kind has one, and its nodes. */
  datatype Statement =
    | Declared(pos: Location, nodes: seq<Location>)
    | Undeclared(nodes: seq<Location>)

  /** `statementStartLocation` */
  function StartOf(stmt: Statement): Location {
    if stmt.Declared? then stmt.pos else Earliest(stmt.nodes)
  }

  /** The range of symbol `i`. */
  function SymbolRange(stmts: seq<Statement>, i: nat, content: bytes, lines: seq<bytes>): Range
    requires i < |stmts|
  {
    var start := if StartOf(stmts[i]) == NO_LOCATION then Location(1, 1) else StartOf(stmts[i]);
    var whole := StatementEnd(stmts[i].nodes, start, content, lines);
    var bounded :=
      if i + 1 < |stmts| && StartOf(stmts[i + 1]) != NO_LOCATION && LocBefore(StartOf(stmts[i + 1]), whole)
      then StepBack(StartOf(stmts[i + 1]), lines) else whole;
    var end := if LocBefore(bounded, start) then start else bounded;
    Range(ToPosition(start, lines), ToPosition(end, lines))
  }

  /** The location is on a line of the document and at most one past its last column. */
  predicate InDocument(loc: Location, lines: seq<bytes>) {
    1 <= loc.line <= |lines| && 1 <= loc.column <= |lines[loc.line - 1]| + 1
  }

  /** The starts lie in the document and strictly increase. */
  predicate InOrder(stmts: seq<Statement>, lines: seq<bytes>) {
    && (forall i :: 0 <= i < |stmts| ==> InDocument(StartOf(stmts[i]), lines))
    && (forall i :: 0 <= i < |stmts| - 1 ==> LocBefore(StartOf(stmts[i]), StartOf(stmts[i + 1])))
  }

  /** Order survives the conversion to clamped 0-based positions. */
  lemma ToPositionKeepsOrder(a: Location, b: Location, lines: seq<bytes>)
    requires a.line >= 1 && b.line >= 1 && !LocBefore(b, a)
    ensures AtOrBefore(ToPosition(a, lines), ToPosition(b, lines))
  {
  }

  lemma StepBackIsBefore(loc: Location, lines: seq<bytes>)
    requires InDocument(loc, lines) && loc != Location(1, 1)
    ensures LocBefore(StepBack(loc, lines), loc) && StepBack(loc, lines).line >= 1
  {
  }

  /** Every range starts where its statement does, does not end before it starts, nor after the next one starts. */
  lemma RangesInOrder(stmts: seq<Statement>, i: nat, content: bytes, lines: seq<bytes>)
    requires InOrder(stmts, lines) && i < |stmts|
    ensures var r := SymbolRange(stmts, i, content, lines);
            && r.start == Position(StartOf(stmts[i]).line - 1, StartOf(stmts[i]).column - 1)
            && AtOrBefore(r.start, r.end)
            && (i + 1 < |stmts| ==> AtOrBefore(r.end, SymbolRange(stmts, i + 1, content, lines).start))
  {
    var start := StartOf(stmts[i]);
    assert InDocument(start, lines);
    LatestIsNeverFound(stmts[i].nodes);
    var whole := StatementEnd(stmts[i].nodes, start, content, lines);
    assert whole.line >= 1;
    if i + 1 < |stmts| {
      var next := StartOf(stmts[i + 1]);
      assert LocBefore(start, next) && InDocument(next, lines);
      StepBackIsBefore(next, lines);
      var bounded := if LocBefore(next, whole) then StepBack(next, lines) else whole;
      var end := if LocBefore(bounded, start) then start else bounded;
      ToPositionKeepsOrder(start, end, lines);
      ToPositionKeepsOrder(end, next, lines);
    } else {
      var end := if LocBefore(whole, start) then start else whole;
      ToPositionKeepsOrder(start, end, lines);
    }
  }

  // ---------------------------------------------------------------- where a range is

  function PositionOf(s: bytes, o: nat): Position
    requires o <= |s|
  {
    Position(LineOf(s, o), ColumnOf(s, o))
  }

  /** A location in the document is that of its offset. */
  lemma LocationIsOffset(content: bytes, lines: seq<bytes>, loc: Location)
    requires Fits(content, 0, lines) && InDocument(loc, lines)
    ensures var o := LineColToOffsetOf(content, loc.line, loc.column);
            0 <= o <= |content| && LocationOf(content, o) == loc
  {
    assert LineFits(content, 0, lines, loc.line - 1);
    var start := Before(lines, loc.line - 1);
    SameLine(content, start, start + loc.column - 1);
    OffsetRoundTrip(content, start + loc.column - 1);
  }

  /** Locations are in the order of their offsets. */
  lemma LocationsInOrder(s: bytes, o: nat, o': nat)
    requires o <= |s| && o' <= |s|
    ensures LocBefore(LocationOf(s, o), LocationOf(s, o')) <==> o < o'
  {
    if o < o' {
      LineOfMonotone(s, o, o');
    } else {
      LineOfMonotone(s, o', o);
    }
  }

  /** The column of an offset is within its line. */
  lemma ColumnWithin(content: bytes, lines: seq<bytes>, o: nat)
    requires Fits(content, 0, lines) && o <= |content|
    ensures LineOf(content, o) < |lines| && ColumnOf(content, o) <= |lines[LineOf(content, o)]|
    ensures AtLineEnd(content, o) ==> ColumnOf(content, o) == |lines[LineOf(content, o)]|
  {
    var line := LineOf(content, o);
    LineOfMonotone(content, o, |content|);
    assert LineFits(content, 0, lines, line);
    var start := Before(lines, line);
    LineStartIs(content, o);
    LineStartIs(content, start);
    var e := LineEnd(content, start);
    if e < o { LineOfMonotone(content, e + 1, o); }
  }

  lemma ToPositionIs(content: bytes, lines: seq<bytes>, o: nat)
    requires Fits(content, 0, lines) && o <= |content|
    ensures ToPosition(LocationOf(content, o), lines) == PositionOf(content, o)
  {
    ColumnWithin(content, lines, o);
  }

  /** One step back is one byte back. */
  lemma StepBackIsOneByte(content: bytes, lines: seq<bytes>, o: nat)
    requires Fits(content, 0, lines) && 0 < o <= |content|
    ensures StepBack(LocationOf(content, o), lines) == LocationOf(content, o - 1)
  {
    if content[o - 1] == NEWLINE { ColumnWithin(content, lines, o - 1); }
  }

  lemma SemicolonOrEOFIsLocation(content: bytes, lines: seq<bytes>, o: nat) returns (e: nat)
    requires Fits(content, 0, lines) && o <= |content|
    ensures AfterSemicolon(content, o, e)
    ensures SemicolonOrEOF(LocationOf(content, o), content, lines) == LocationOf(content, e)
  {
    OffsetRoundTrip(content, o);
    var idx := IndexOf(content, SEMICOLON, o);
    if idx >= 0 {
      e := idx + 1;
    } else {
      e := |content|;
      ColumnWithin(content, lines, e);
    }
  }

  /** There is only one such offset. */
  lemma AfterSemicolonUnique(s: bytes, o: int, e: int, e': int)
    requires AfterSemicolon(s, o, e) && AfterSemicolon(s, o, e')
    ensures e == e'
  {
  }

  /** Where the range of a statement ends: after the next semicolon, or one byte before the next statement. */
  function RangeEnd(e: nat, next: Option<nat>): nat {
    if next.Some? && 0 < next.value < e then next.value - 1 else e
  }

  /** The range of symbol `i`, by offsets. */
  lemma RangeByOffsets(
    stmts: seq<Statement>, i: nat, content: bytes, lines: seq<bytes>, o: nat, e: nat, next: Option<nat>)
    requires Fits(content, 0, lines) && i < |stmts| && o <= |content| && AfterSemicolon(content, o, e)
    requires StartOf(stmts[i]) == LocationOf(content, o)
    requires if i + 1 < |stmts| then next.Some? && o < next.value <= |content|
                                     && StartOf(stmts[i + 1]) == LocationOf(content, next.value)
             else next.None?
    ensures SymbolRange(stmts, i, content, lines) ==
            Range(PositionOf(content, o), PositionOf(content, RangeEnd(e, next)))
  {
    var start := LocationOf(content, o);
    LatestIsNeverFound(stmts[i].nodes);
    var found := SemicolonOrEOFIsLocation(content, lines, o);
    AfterSemicolonUnique(content, o, e, found);
    var end := RangeEnd(e, next);
    if next.Some? {
      LocationsInOrder(content, next.value, e);
      StepBackIsOneByte(content, lines, next.value);
    }
    LocationsInOrder(content, end, o);
    ToPositionIs(content, lines, o);
    ToPositionIs(content, lines, end);
  }

  /** The offset at which statement `i` starts, one past the document when there is no such statement. */
  function StartOffset(stmts: seq<Statement>, i: nat, content: bytes): int {
    if i < |stmts| then LineColToOffsetOf(content, StartOf(stmts[i]).line, StartOf(stmts[i]).column) else |content| + 1
  }

  lemma StartsAreOffsets(stmts: seq<Statement>, i: nat, content: bytes, lines: seq<bytes>)
    requires Fits(content, 0, lines) && InOrder(stmts, lines) && i < |stmts|
    ensures 0 <= StartOffset(stmts, i, content) <= |content|
    ensures StartOf(stmts[i]) == LocationOf(content, StartOffset(stmts, i, content))
  {
    assert InDocument(StartOf(stmts[i]), lines);
    LocationIsOffset(content, lines, StartOf(stmts[i]));
  }

  /**
    For starts in order in the document, the range of a statement goes from its start to just after
    the first semicolon from there on, or to the end of the document when there is none, and no
    further than one byte before the start of the next statement.  The lines are those of the
    content: `LinesFit`.
   */
  lemma RangeExactly(stmts: seq<Statement>, i: nat, content: bytes, lines: seq<bytes>, o: int, next: int, e: int)
    requires Fits(content, 0, lines) && InOrder(stmts, lines) && i < |stmts|
    requires o == StartOffset(stmts, i, content) && next == StartOffset(stmts, i + 1, content)
    requires AfterSemicolon(content, o, e)
    ensures var end := if next < e then next - 1 else e;
            && 0 <= o <= end <= e <= |content|
            && SymbolRange(stmts, i, content, lines) ==
               Range(Position(LineOf(content, o), ColumnOf(content, o)),
                     Position(LineOf(content, end), ColumnOf(content, end)))
  {
    StartsAreOffsets(stmts, i, content, lines);
    if i + 1 < |stmts| {
      StartsAreOffsets(stmts, i + 1, content, lines);
      assert LocBefore(StartOf(stmts[i]), StartOf(stmts[i + 1]));
      LocationsInOrder(content, o, next);
      RangeByOffsets(stmts, i, content, lines, o, e, Some(next));
    } else {
      RangeByOffsets(stmts, i, content, lines, o, e, None);
    }
  }
}
