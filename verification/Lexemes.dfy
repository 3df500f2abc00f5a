/**
  The lexemes that the statement splitter (pkg/gosqlx/splitter.go) recognises.

  Two independent descriptions are given and proved equal:
   - `IsLexeme` says, without running anything, when the bytes `s[i..j]` are one lexeme of `s`
     in a dialect profile;
   - `Step`/`EndOf`/`LexemeEnd` run the automaton of the source one move at a time.
 */
module Lexemes {
  import opened Bytes

  /** The five per-dialect feature switches. */
  datatype Profile = Profile(
    dollarQuoting: bool,
    backticks: bool,
    brackets: bool,
    eStrings: bool,
    nestedComments: bool)

  type Depth = n: nat | n > 0 witness 1

  type Tag = t: bytes | |t| >= 2 && t[0] == DOLLAR && SEMICOLON !in t witness [DOLLAR, DOLLAR]

  /** What the cursor is inside of. */
  datatype Context =
    | Top
    | Line
    | Block(depth: Depth)
    | Dollar(tag: Tag)
    | Single(escapes: bool)
    | Double
    | Backtick
    | Bracket

  /** One move of the cursor: the context it ends in and the number of bytes it passes. */
  datatype Move = Move(next: Context, eaten: nat)

  // ---------------------------------------------------------------- dollar tags

  predicate IsTagStart(c: byte) {
    IsLetter(c) || c == UNDERSCORE
  }

  predicate IsTagCont(c: byte) {
    IsTagStart(c) || IsDigit(c)
  }

  /** "$$" or "$name$". */
  predicate IsDollarTag(t: bytes) {
    && |t| >= 2 && t[0] == DOLLAR && t[|t| - 1] == DOLLAR
    && (|t| > 2 ==> IsTagStart(t[1]))
    && forall k :: 1 < k < |t| - 1 ==> IsTagCont(t[k])
  }

  /** `pattern` stands in `s` at `k`; the source's `matchDollarTag` when the pattern is a tag. */
  predicate OccursAt(pattern: bytes, s: bytes, k: nat) {
    k + |pattern| <= |s| && s[k..k + |pattern|] == pattern
  }

  /** The first index at or after `j` that cannot continue a tag body. */
  function TagBodyEnd(s: bytes, j: nat): (end: nat)
    requires j <= |s|
    ensures j <= end <= |s|
    decreases |s| - j
  {
    if j < |s| && IsTagCont(s[j]) then TagBodyEnd(s, j + 1) else j
  }

  /** The length of the dollar tag that starts at `i`, 0 when there is none. */
  function TagLength(s: bytes, i: nat): (n: nat)
    requires i < |s|
    ensures n > 0 ==> 2 <= n <= |s| - i
  {
    if i + 1 == |s| || s[i] != DOLLAR then 0
    else if s[i + 1] == DOLLAR then 2
    else if !IsTagStart(s[i + 1]) then 0
    else
      var j := TagBodyEnd(s, i + 2);
      if j < |s| && s[j] == DOLLAR then j + 1 - i else 0
  }

  lemma {:induction false} TagBodyEndMeaning(s: bytes, j: nat)
    requires j <= |s|
    ensures var end := TagBodyEnd(s, j);
            && (forall k :: j <= k < end ==> IsTagCont(s[k]))
            && (end < |s| ==> !IsTagCont(s[end]))
    decreases |s| - j
  {
    if j < |s| && IsTagCont(s[j]) {
      TagBodyEndMeaning(s, j + 1);
    }
  }

  lemma TagIsDollarTag(s: bytes, i: nat)
    requires i < |s| && TagLength(s, i) > 0
    ensures IsDollarTag(s[i..i + TagLength(s, i)])
  {
    if i + 2 <= |s| { TagBodyEndMeaning(s, i + 2); }
  }

  /** `TagLength` finds the one dollar tag that starts at `i`, and finds none only when there is none. */
  lemma TagLengthMeaning(s: bytes, i: nat, t: bytes)
    requires i < |s|
    ensures IsDollarTag(t) && OccursAt(t, s, i) <==> TagLength(s, i) > 0 && t == s[i..i + TagLength(s, i)]
  {
    if i + 2 <= |s| { TagBodyEndMeaning(s, i + 2); }
    if IsDollarTag(t) && OccursAt(t, s, i) {
      assert forall k :: 0 <= k < |t| ==> s[i + k] == t[k];
      assert s[i + |t| - 1] == DOLLAR;
    }
  }

  // ---------------------------------------------------------------- the automaton

  /** The byte after the one at `i`, or -1 at the end of the input. */
  function Peek(s: bytes, i: nat): int {
    if i + 1 < |s| then s[i + 1] as int else -1
  }

  /** What the top-level byte at `i` opens; `Top` for a plain byte. */
  function Opener(p: Profile, s: bytes, i: nat): (m: Move)
    requires i < |s|
    ensures 1 <= m.eaten <= |s| - i
  {
    var b, d := s[i], Peek(s, i);
    if b == MINUS && d == MINUS then Move(Line, 2)
    else if b == SLASH && d == STAR then Move(Block(1), 2)
    else if p.eStrings && (b == UPPER_E || b == LOWER_E) && d == SINGLE_QUOTE then Move(Single(true), 2)
    else if b == SINGLE_QUOTE then Move(Single(false), 1)
    else if b == DOUBLE_QUOTE then Move(Double, 1)
    else if p.backticks && b == BACKTICK then Move(Backtick, 1)
    else if p.brackets && b == LBRACKET then Move(Bracket, 1)
    else if p.dollarQuoting && b == DOLLAR && TagLength(s, i) > 0 then
      TagIsDollarTag(s, i);
      Move(Dollar(s[i..i + TagLength(s, i)]), TagLength(s, i))
    else Move(Top, 1)
  }

  /** One move inside context `c`. */
  function Step(p: Profile, c: Context, s: bytes, i: nat): (m: Move)
    requires i < |s| && !c.Top?
    ensures 1 <= m.eaten <= |s| - i
  {
    var b, d := s[i], Peek(s, i);
    match c
    case Line => Move(if b == NEWLINE then Top else Line, 1)
    case Block(n) =>
      if p.nestedComments && b == SLASH && d == STAR then Move(Block(n + 1), 2)
      else if b == STAR && d == SLASH then Move(if n == 1 then Top else Block(n - 1), 2)
      else Move(c, 1)
    case Dollar(tag) => if OccursAt(tag, s, i) then Move(Top, |tag|) else Move(c, 1)
    case Single(e) =>
      if e && b == BACKSLASH && d >= 0 then Move(c, 2)
      else if b != SINGLE_QUOTE then Move(c, 1)
      else if d == SINGLE_QUOTE then Move(c, 2)
      else Move(Top, 1)
    case Double => Move(if b == DOUBLE_QUOTE then Top else Double, 1)
    case Backtick => Move(if b == BACKTICK then Top else Backtick, 1)
    case Bracket => Move(if b == RBRACKET then Top else Bracket, 1)
  }

  /** Where the context that the cursor is in at `i` ends. */
  function EndOf(p: Profile, c: Context, s: bytes, i: nat): (e: nat)
    requires i <= |s|
    ensures i <= e <= |s|
    decreases |s| - i
  {
    if c.Top? || i == |s| then i
    else
      var m := Step(p, c, s, i);
      EndOf(p, m.next, s, i + m.eaten)
  }

  /** Where the lexeme that starts at `i` ends. */
  function LexemeEnd(p: Profile, s: bytes, i: nat): (e: nat)
    requires i < |s|
    ensures i < e <= |s|
  {
    var m := Opener(p, s, i);
    EndOf(p, m.next, s, i + m.eaten)
  }

  // ---------------------------------------------------------------- the declarative lexemes

  /**
    `s[i..j]` runs up to and including the first `pattern` at or after `i`, or, when there is
    none, up to the end of the input.
   */
  ghost predicate EndsAtFirst(pattern: bytes, s: bytes, i: nat, j: nat) {
    || (i + |pattern| <= j && OccursAt(pattern, s, j - |pattern|)
        && forall k: nat :: i <= k < j - |pattern| ==> !OccursAt(pattern, s, k))
    || (j == |s| && forall k: nat :: i <= k ==> !OccursAt(pattern, s, k))
  }

  /** `s[i..k]` is string text: doubled quotes, escape pairs (when `e`), and bytes that are neither. */
  predicate StringText(e: bool, s: bytes, i: nat, k: nat)
    requires i <= k <= |s|
    decreases k - i
  {
    || i == k
    || (i + 2 <= k && s[i] == SINGLE_QUOTE && s[i + 1] == SINGLE_QUOTE && StringText(e, s, i + 2, k))
    || (i + 2 <= k && e && s[i] == BACKSLASH && StringText(e, s, i + 2, k))
    || (s[i] != SINGLE_QUOTE && !(e && s[i] == BACKSLASH) && StringText(e, s, i + 1, k))
  }

  /** A string is text and a closing quote that no quote follows, or runs to the end of the input. */
  predicate StringSpan(e: bool, s: bytes, i: nat, j: nat)
    requires i <= j <= |s|
  {
    || (i < j && s[j - 1] == SINGLE_QUOTE && StringText(e, s, i, j - 1) && !(j < |s| && s[j] == SINGLE_QUOTE))
    || (j == |s| && StringText(e, s, i, j))
    || (j == |s| && e && i < j && s[j - 1] == BACKSLASH && StringText(e, s, i, j - 1))
  }

  predicate PairAt(a: byte, b: byte, s: bytes, i: nat) {
    i + 1 < |s| && s[i] == a && s[i + 1] == b
  }

  /** What the unit of comment text at `i` adds to the number of open comments. */
  function UnitDepth(p: Profile, s: bytes, i: nat): int {
    if p.nestedComments && PairAt(SLASH, STAR, s, i) then 1 else if PairAt(STAR, SLASH, s, i) then -1 else 0
  }

  /** Openers and closers are two bytes long, any other byte is a unit. */
  function UnitLength(p: Profile, s: bytes, i: nat): (k: nat)
    ensures 1 <= k && (i < |s| ==> i + k <= |s|)
  {
    if UnitDepth(p, s, i) == 0 then 1 else 2
  }

  /** Where the first `n` units from `i` on end. */
  function UnitsEnd(p: Profile, s: bytes, i: nat, n: nat): (j: nat)
    requires i <= |s|
    ensures i <= j <= |s|
    decreases n
  {
    if n == 0 || i == |s| then i else UnitsEnd(p, s, i + UnitLength(p, s, i), n - 1)
  }

  /** How many more openers than closers are among them. */
  function Surplus(p: Profile, s: bytes, i: nat, n: nat): int
    requires i <= |s|
    decreases n
  {
    if n == 0 || i == |s| then 0 else UnitDepth(p, s, i) + Surplus(p, s, i + UnitLength(p, s, i), n - 1)
  }

  /** `s[i..j]` is the fewest units that close `d` open comments. */
  ghost predicate CommentCloses(p: Profile, d: nat, s: bytes, i: nat, j: nat)
    requires i <= |s|
  {
    exists n: nat :: ClosesAfter(p, d, s, i, n) && UnitsEnd(p, s, i, n) == j
  }

  ghost predicate ClosesAfter(p: Profile, d: nat, s: bytes, i: nat, n: nat)
    requires i <= |s|
  {
    d + Surplus(p, s, i, n) == 0 && forall m: nat :: m < n ==> d + Surplus(p, s, i, m) > 0
  }

  /** However far one reads from `i`, at least one of `d` open comments stays open. */
  ghost predicate CommentStaysOpen(p: Profile, d: nat, s: bytes, i: nat)
    requires i <= |s|
  {
    forall n: nat :: d + Surplus(p, s, i, n) > 0
  }

  /** `s[i..j]` is exactly what remains of a lexeme in context `c`. */
  ghost predicate Spans(p: Profile, c: Context, s: bytes, i: nat, j: nat)
    requires i <= j <= |s|
  {
    match c
    case Top => i == j
    case Line => EndsAtFirst([NEWLINE], s, i, j)
    case Block(d) => CommentCloses(p, d, s, i, j) || (j == |s| && CommentStaysOpen(p, d, s, i))
    case Dollar(tag) => EndsAtFirst(tag, s, i, j)
    case Single(e) => StringSpan(e, s, i, j)
    case Double => EndsAtFirst([DOUBLE_QUOTE], s, i, j)
    case Backtick => EndsAtFirst([BACKTICK], s, i, j)
    case Bracket => EndsAtFirst([RBRACKET], s, i, j)
  }

  /** The byte at `i` is the character `a`. */
  predicate ByteAt(s: bytes, i: nat, a: char) {
    i < |s| && s[i] == a as int
  }

  /** The two bytes at `i` are the characters `a` and `b`. */
  predicate BytesAt(s: bytes, i: nat, a: char, b: char) {
    ByteAt(s, i, a) && ByteAt(s, i + 1, b)
  }

  /** The `n` bytes at `i` open the context `c`, which is none of the contexts for a byte that opens nothing. */
  ghost predicate OpensWith(p: Profile, s: bytes, i: nat, c: Context, n: nat) {
    match c
    case Line => BytesAt(s, i, '-', '-') && n == 2
    case Block(d) => BytesAt(s, i, '/', '*') && d == 1 && n == 2
    case Single(escapes) =>
      if escapes then p.eStrings && (BytesAt(s, i, 'E', '\'') || BytesAt(s, i, 'e', '\'')) && n == 2
      else ByteAt(s, i, '\'') && n == 1
    case Double => ByteAt(s, i, '"') && n == 1
    case Backtick => p.backticks && ByteAt(s, i, '`') && n == 1
    case Bracket => p.brackets && ByteAt(s, i, '[') && n == 1
    case Dollar(tag) => p.dollarQuoting && IsDollarTag(tag) && OccursAt(tag, s, i) && n == |tag|
    case Top => OpensNothing(p, s, i) && n == 1
  }

  /** No context opens at `i`. */
  ghost predicate OpensNothing(p: Profile, s: bytes, i: nat) {
    && i < |s|
    && !BytesAt(s, i, '-', '-') && !BytesAt(s, i, '/', '*')
    && !(p.eStrings && (BytesAt(s, i, 'E', '\'') || BytesAt(s, i, 'e', '\'')))
    && !ByteAt(s, i, '\'') && !ByteAt(s, i, '"')
    && !(p.backticks && ByteAt(s, i, '`')) && !(p.brackets && ByteAt(s, i, '['))
    && !(p.dollarQuoting && exists tag :: IsDollarTag(tag) && OccursAt(tag, s, i))
  }

  /** `s[i..j]` is one lexeme of `s`: the text that opens a context and what that context spans. */
  ghost predicate IsLexeme(p: Profile, s: bytes, i: nat, j: nat) {
    i < j <= |s| && exists c, n: nat :: OpensWith(p, s, i, c, n) && i + n <= j && Spans(p, c, s, i + n, j)
  }

  // ---------------------------------------------------------------- the two agree

  lemma EndsAtFirstUnroll(pattern: bytes, s: bytes, i: nat, j: nat)
    requires pattern != [] && i <= j <= |s| && i < |s|
    ensures EndsAtFirst(pattern, s, i, j) <==>
            if OccursAt(pattern, s, i) then j == i + |pattern| else i < j && EndsAtFirst(pattern, s, i + 1, j)
  {
  }

  /** A context whose only way out is the first `pattern` ends exactly there. */
  lemma {:induction false} FirstMatchIsEnd(p: Profile, c: Context, pattern: bytes, s: bytes, i: nat, j: nat)
    requires !c.Top? && pattern != [] && i <= j <= |s|
    requires forall k: nat :: k < |s| ==>
      Step(p, c, s, k) == if OccursAt(pattern, s, k) then Move(Top, |pattern|) else Move(c, 1)
    ensures EndsAtFirst(pattern, s, i, j) <==> j == EndOf(p, c, s, i)
    decreases j - i
  {
    if i < |s| {
      EndsAtFirstUnroll(pattern, s, i, j);
      if !OccursAt(pattern, s, i) && i < j {
        FirstMatchIsEnd(p, c, pattern, s, i + 1, j);
      }
    }
  }

  lemma SingleByteStep(p: Profile, c: Context, b: byte, s: bytes)
    requires !c.Top?
    requires forall k: nat :: k < |s| ==> Step(p, c, s, k) == Move(if s[k] == b then Top else c, 1)
    ensures forall k: nat :: k < |s| ==>
      Step(p, c, s, k) == if OccursAt([b], s, k) then Move(Top, |[b]|) else Move(c, 1)
  {
    assert forall k: nat :: k < |s| ==> s[k..k + 1] == [s[k]];
  }

  lemma {:induction false} StringSpanIsEnd(p: Profile, e: bool, s: bytes, i: nat, j: nat)
    requires i <= j <= |s|
    ensures StringSpan(e, s, i, j) <==> j == EndOf(p, Single(e), s, i)
    decreases j - i
  {
    if i < |s| {
      var Move(c', k) := Step(p, Single(e), s, i);
      if !c'.Top? && i + k <= j {
        StringSpanIsEnd(p, e, s, i + k, j);
      }
    }
  }

  lemma SurplusCons(p: Profile, s: bytes, i: nat, n: nat)
    requires i < |s| && n > 0
    ensures Surplus(p, s, i, n) == UnitDepth(p, s, i) + Surplus(p, s, i + UnitLength(p, s, i), n - 1)
    ensures UnitsEnd(p, s, i, n) == UnitsEnd(p, s, i + UnitLength(p, s, i), n - 1)
  {
  }

  lemma {:induction false} ClosesCons(p: Profile, d: nat, s: bytes, i: nat, j: nat)
    requires d > 0 && i < |s|
    ensures var (d', i') := (d + UnitDepth(p, s, i), i + UnitLength(p, s, i));
            CommentCloses(p, d, s, i, j) <==> if d' == 0 then j == i' else CommentCloses(p, d', s, i', j)
  {
    var (d', i') := (d + UnitDepth(p, s, i), i + UnitLength(p, s, i));
    forall n: nat | n > 0
      ensures ClosesAfter(p, d, s, i, n) <==> if d' == 0 then n == 1 else ClosesAfter(p, d', s, i', n - 1)
      ensures UnitsEnd(p, s, i, n) == UnitsEnd(p, s, i', n - 1)
    {
      ClosesAfterCons(p, d, s, i, n);
      SurplusCons(p, s, i, n);
    }
    if d' == 0 {
      assert ClosesAfter(p, d, s, i, 1);
    } else if CommentCloses(p, d', s, i', j) {
      var n: nat :| ClosesAfter(p, d', s, i', n) && UnitsEnd(p, s, i', n) == j;
      assert ClosesAfter(p, d, s, i, n + 1);
    }
  }

  lemma {:induction false} ClosesAfterCons(p: Profile, d: nat, s: bytes, i: nat, n: nat)
    requires d > 0 && i < |s| && n > 0
    ensures var (d', i') := (d + UnitDepth(p, s, i), i + UnitLength(p, s, i));
            ClosesAfter(p, d, s, i, n) <==> if d' == 0 then n == 1 else ClosesAfter(p, d', s, i', n - 1)
  {
    var (d', i') := (d + UnitDepth(p, s, i), i + UnitLength(p, s, i));
    assert forall m: nat :: m > 0 ==> d + Surplus(p, s, i, m) == d' + Surplus(p, s, i', m - 1);
    if ClosesAfter(p, d, s, i, n) {
      assert d + Surplus(p, s, i, 1) == d';
      forall m: nat | m < n - 1
        ensures d' + Surplus(p, s, i', m) > 0
      {
        assert d + Surplus(p, s, i, m + 1) > 0;
      }
    } else if d' != 0 && ClosesAfter(p, d', s, i', n - 1) {
      forall m: nat | m < n
        ensures d + Surplus(p, s, i, m) > 0
      {
        if m > 0 { assert d' + Surplus(p, s, i', m - 1) > 0; }
      }
    }
  }

  lemma {:induction false} StaysOpenCons(p: Profile, d: nat, s: bytes, i: nat)
    requires d > 0 && i < |s|
    ensures var (d', i') := (d + UnitDepth(p, s, i), i + UnitLength(p, s, i));
            CommentStaysOpen(p, d, s, i) <==> d' > 0 && CommentStaysOpen(p, d', s, i')
  {
    var (d', i') := (d + UnitDepth(p, s, i), i + UnitLength(p, s, i));
    if CommentStaysOpen(p, d, s, i) {
      assert d + Surplus(p, s, i, 1) == d';
      forall n: nat
        ensures d' + Surplus(p, s, i', n) > 0
      {
        assert d + Surplus(p, s, i, n + 1) > 0;
      }
    } else if d' > 0 {
      var n: nat :| d + Surplus(p, s, i, n) <= 0;
      assert d' + Surplus(p, s, i', n - 1) <= 0;
    }
  }

  /** One move inside a comment passes one unit. */
  lemma StepIsUnit(p: Profile, d: Depth, s: bytes, i: nat)
    requires i < |s|
    ensures var d' := d + UnitDepth(p, s, i);
            Step(p, Block(d), s, i) == Move(if d' == 0 then Top else Block(d'), UnitLength(p, s, i))
  {
  }

  lemma {:induction false} CommentSpanIsEnd(p: Profile, d: Depth, s: bytes, i: nat, j: nat)
    requires i <= j <= |s|
    ensures Spans(p, Block(d), s, i, j) <==> j == EndOf(p, Block(d), s, i)
    decreases |s| - i
  {
    if i < |s| {
      var (d', k) := (d + UnitDepth(p, s, i), UnitLength(p, s, i));
      StepIsUnit(p, d, s, i);
      ClosesCons(p, d, s, i, j);
      StaysOpenCons(p, d, s, i);
      if d' > 0 && i + k <= j {
        CommentSpanIsEnd(p, d', s, i + k, j);
      }
    } else {
      assert forall n: nat :: Surplus(p, s, i, n) == 0;
    }
  }

  /** In a flat dialect a comment ends at the first star-slash. */
  lemma FlatCommentEndsAtFirst(p: Profile, s: bytes, i: nat, j: nat)
    requires !p.nestedComments && i <= j <= |s|
    ensures Spans(p, Block(1), s, i, j) <==> EndsAtFirst([STAR, SLASH], s, i, j)
  {
    forall k: nat | k < |s|
      ensures Step(p, Block(1), s, k) ==
              if OccursAt([STAR, SLASH], s, k) then Move(Top, |[STAR, SLASH]|) else Move(Block(1), 1)
    {
      if k + 2 <= |s| { assert s[k..k + 2] == [s[k], s[k + 1]]; }
    }
    FirstMatchIsEnd(p, Block(1), [STAR, SLASH], s, i, j);
    CommentSpanIsEnd(p, 1, s, i, j);
  }

  lemma SpansIsEnd(p: Profile, c: Context, s: bytes, i: nat, j: nat)
    requires i <= j <= |s|
    ensures Spans(p, c, s, i, j) <==> j == EndOf(p, c, s, i)
  {
    match c
    case Top =>
    case Line => SingleByteStep(p, c, NEWLINE, s); FirstMatchIsEnd(p, c, [NEWLINE], s, i, j);
    case Block(d) => CommentSpanIsEnd(p, d, s, i, j);
    case Dollar(tag) => FirstMatchIsEnd(p, c, tag, s, i, j);
    case Single(e) => StringSpanIsEnd(p, e, s, i, j);
    case Double => SingleByteStep(p, c, DOUBLE_QUOTE, s); FirstMatchIsEnd(p, c, [DOUBLE_QUOTE], s, i, j);
    case Backtick => SingleByteStep(p, c, BACKTICK, s); FirstMatchIsEnd(p, c, [BACKTICK], s, i, j);
    case Bracket => SingleByteStep(p, c, RBRACKET, s); FirstMatchIsEnd(p, c, [RBRACKET], s, i, j);
  }

  /** The automaton opens a context exactly where the text does. */
  lemma OpenerExactly(p: Profile, s: bytes, i: nat, c: Context, n: nat)
    requires i < |s|
    ensures OpensWith(p, s, i, c, n) <==> Opener(p, s, i) == Move(c, n)
  {
    if TagLength(s, i) > 0 {
      TagLengthMeaning(s, i, s[i..i + TagLength(s, i)]);
    }
    if c.Dollar? {
      TagLengthMeaning(s, i, c.tag);
    }
    forall tag
      ensures IsDollarTag(tag) && OccursAt(tag, s, i) ==> TagLength(s, i) > 0
    {
      TagLengthMeaning(s, i, tag);
    }
  }

  /** The automaton cuts off a word exactly when that word is a lexeme. */
  lemma LexemeIsEnd(p: Profile, s: bytes, i: nat, j: nat)
    requires i < |s|
    ensures IsLexeme(p, s, i, j) <==> j == LexemeEnd(p, s, i)
  {
    var m := Opener(p, s, i);
    OpenerExactly(p, s, i, m.next, m.eaten);
    forall c, n: nat | OpensWith(p, s, i, c, n)
      ensures Move(c, n) == m
    {
      OpenerExactly(p, s, i, c, n);
    }
    if i + m.eaten <= j <= |s| {
      SpansIsEnd(p, m.next, s, i + m.eaten, j);
    }
  }
}
