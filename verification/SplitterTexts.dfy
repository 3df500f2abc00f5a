/**
  What the splitter does with the texts of SQL, in every dialect profile: quoted text of any kind
  keeps its semicolons, and text that opens nothing is cut at each of them.
 */
module SplitterTexts {
  import opened Bytes
  import opened Lexemes
  import opened Splitter
  import opened SplitterLaws

  // ---------------------------------------------------------------- one lexeme

  /** `q` is a lexeme when a semicolon follows it. */
  predicate IsWhole(p: Profile, q: bytes) {
    q != [] && q[0] != 59 && LexemeEnd(p, q + [59], 0) == |q|
  }

  /** Such a text is one statement, and the semicolon after it ends that. */
  lemma WholeIsOne(p: Profile, q: bytes)
    requires IsWhole(p, q)
    ensures Split(p, q) == [q] && Split(p, q + [59]) == [q]
  {
    var t := q + [59];
    LexemeIgnoresSemicolon(p, q, t, 0);
    assert LexemeEnd(p, q, 0) == |q|;
    assert q[0..|q|] == q && t[0..|q|] == q && t[0] == q[0];
    var (eq, et) := (TableOf(p, q), TableOf(p, t));
    assert Statements(eq, q, 0, 0) == Statements(eq, q, 0, |q|) == [q];
    assert Statements(et, t, |t|, |t|) == [];
    assert Statements(et, t, 0, 0) == Statements(et, t, 0, |q|) == [q] + [];
  }

  lemma OpensAt(p: Profile, s: bytes, c: Context, n: nat)
    requires s != [] && OpensWith(p, s, 0, c, n)
    ensures n <= |s| && LexemeEnd(p, s, 0) == EndOf(p, c, s, n)
  {
    OpenerExactly(p, s, 0, c, n);
  }

  // ---------------------------------------------------------------- quotes

  /** `x` with every single quote doubled. */
  function Doubled(x: bytes): bytes {
    if x == [] then [] else (if x[0] == 39 then [39, 39] else [x[0]]) + Doubled(x[1..])
  }

  lemma {:induction false} DoubledIsInside(p: Profile, before: bytes, x: bytes)
    ensures EndOf(p, Single(false), before + Doubled(x) + [39, 59], |before|) == |before| + |Doubled(x)| + 1
    decreases |x|
  {
    var s := before + Doubled(x) + [39, 59];
    if x == [] {
      assert s == before + [39, 59];
      assert Step(p, Single(false), s, |before|) == Move(Top, 1);
    } else {
      var unit := if x[0] == 39 then [39, 39] else [x[0]];
      assert s == (before + unit) + Doubled(x[1..]) + [39, 59];
      assert s[|before|] == unit[0] && (x[0] == 39 ==> s[|before| + 1] == 39);
      assert Step(p, Single(false), s, |before|) == Move(Single(false), |unit|);
      DoubledIsInside(p, before + unit, x[1..]);
    }
  }

  /** Any bytes in single quotes, with their own quotes doubled. */
  lemma SingleQuoted(p: Profile, x: bytes)
    ensures var q := [39] + Doubled(x) + [39]; Split(p, q) == [q] && Split(p, q + [59]) == [q]
  {
    var q := [39] + Doubled(x) + [39];
    assert q + [59] == [39] + Doubled(x) + [39, 59];
    OpensAt(p, q + [59], Single(false), 1);
    DoubledIsInside(p, [39], x);
    WholeIsOne(p, q);
  }

  lemma {:induction false} DoubledIsSame(x: bytes)
    requires 39 !in x
    ensures Doubled(x) == x
    decreases |x|
  {
    if x != [] { DoubledIsSame(x[1..]); }
  }

  /** `x` with a backslash before every single quote and every backslash. */
  function Escaped(x: bytes): bytes {
    if x == [] then [] else (if x[0] == 39 || x[0] == 92 then [92, x[0]] else [x[0]]) + Escaped(x[1..])
  }

  lemma {:induction false} EscapedIsInside(p: Profile, before: bytes, x: bytes)
    ensures EndOf(p, Single(true), before + Escaped(x) + [39, 59], |before|) == |before| + |Escaped(x)| + 1
    decreases |x|
  {
    var s := before + Escaped(x) + [39, 59];
    if x == [] {
      assert s == before + [39, 59];
      assert Step(p, Single(true), s, |before|) == Move(Top, 1);
    } else {
      var unit := if x[0] == 39 || x[0] == 92 then [92, x[0]] else [x[0]];
      assert s == (before + unit) + Escaped(x[1..]) + [39, 59];
      assert s[|before|] == unit[0] && |before| + 1 < |s|;
      assert Step(p, Single(true), s, |before|) == Move(Single(true), |unit|);
      EscapedIsInside(p, before + unit, x[1..]);
    }
  }

  /** Any bytes in an E-string, with quotes and backslashes escaped, where there are E-strings. */
  lemma EStringQuoted(p: Profile, e: byte, x: bytes)
    requires p.eStrings && (e == 69 || e == 101)
    ensures var q := [e, 39] + Escaped(x) + [39]; Split(p, q) == [q] && Split(p, q + [59]) == [q]
  {
    var q := [e, 39] + Escaped(x) + [39];
    assert q + [59] == [e, 39] + Escaped(x) + [39, 59];
    OpensAt(p, q + [59], Single(true), 2);
    EscapedIsInside(p, [e, 39], x);
    WholeIsOne(p, q);
  }

  // ---------------------------------------------------------------- text up to the first closer

  /** A context that ends at the first `closer` after `n` bytes ends there. */
  lemma EndsAtCloser(p: Profile, c: Context, n: nat, closer: bytes, q: bytes)
    requires q != [] && q[0] != 59 && OpensWith(p, q + [59], 0, c, n) && n + |closer| <= |q| && closer != []
    requires forall j: nat :: n <= j <= |q| + 1 ==>
      (EndsAtFirst(closer, q + [59], n, j) <==> Spans(p, c, q + [59], n, j))
    requires q[|q| - |closer|..] == closer
    requires forall k: nat :: n <= k < |q| - |closer| ==> !OccursAt(closer, q + [59], k)
    ensures Split(p, q) == [q] && Split(p, q + [59]) == [q]
  {
    var s := q + [59];
    assert s[|q| - |closer|..|q|] == closer;
    assert EndsAtFirst(closer, s, n, |q|);
    SpansIsEnd(p, c, s, n, |q|);
    OpensAt(p, s, c, n);
    WholeIsOne(p, q);
  }

  /** A byte `open`, text without `close`, and a byte `close`. */
  lemma BetweenBytes(p: Profile, c: Context, open: byte, x: bytes, close: byte)
    requires open != 59 && close !in x && OpensWith(p, [open] + x + [close] + [59], 0, c, 1)
    requires forall s: bytes, i: nat, j: nat :: i <= j <= |s| ==>
               (Spans(p, c, s, i, j) <==> EndsAtFirst([close], s, i, j))
    ensures var q := [open] + x + [close]; Split(p, q) == [q] && Split(p, q + [59]) == [q]
  {
    var q := [open] + x + [close];
    forall k: nat | 1 <= k < |q| - 1
      ensures !OccursAt([close], q + [59], k)
    {
      assert (q + [59])[k..k + 1] == [x[k - 1]];
    }
    assert q[|q| - 1..] == [close];
    EndsAtCloser(p, c, 1, [close], q);
  }

  /** Double quotes, in every dialect. */
  lemma DoubleQuoted(p: Profile, x: bytes)
    requires 34 !in x
    ensures var q := [34] + x + [34]; Split(p, q) == [q] && Split(p, q + [59]) == [q]
  {
    BetweenBytes(p, Double, 34, x, 34);
  }

  lemma BacktickQuoted(p: Profile, x: bytes)
    requires p.backticks && 96 !in x
    ensures var q := [96] + x + [96]; Split(p, q) == [q] && Split(p, q + [59]) == [q]
  {
    BetweenBytes(p, Backtick, 96, x, 96);
  }

  lemma BracketQuoted(p: Profile, x: bytes)
    requires p.brackets && 93 !in x
    ensures var q := [91] + x + [93]; Split(p, q) == [q] && Split(p, q + [59]) == [q]
  {
    BetweenBytes(p, Bracket, 91, x, 93);
  }

  // ---------------------------------------------------------------- comments

  /** A line comment runs to the end of its line, or of the source. */
  lemma LineComment(p: Profile, x: bytes)
    requires 10 !in x
    ensures Split(p, [45, 45] + x) == [[45, 45] + x]
    ensures var q := [45, 45] + x + [10]; Split(p, q) == [q] && Split(p, q + [59]) == [q]
  {
    var q, a := [45, 45] + x + [10], [45, 45] + x;
    forall k: nat | 2 <= k < |q| - 1
      ensures !OccursAt([10], q + [59], k)
    {
      assert (q + [59])[k..k + 1] == [x[k - 2]];
    }
    assert q[|q| - 1..] == [10];
    EndsAtCloser(p, Line, 2, [10], q);
    forall k: nat | 2 <= k
      ensures !OccursAt([10], a, k)
    {
      if k < |a| { assert a[k..k + 1] == [x[k - 2]]; }
    }
    SpansIsEnd(p, Line, a, 2, |a|);
    OpensAt(p, a, Line, 2);
    UnfinishedIsOne(p, a);
  }

  /** A lexeme that runs to the end of the source is one statement. */
  lemma UnfinishedIsOne(p: Profile, a: bytes)
    requires a != [] && a[0] != 59 && LexemeEnd(p, a, 0) == |a|
    ensures Split(p, a) == [a]
  {
    assert a[0..|a|] == a;
    assert Statements(TableOf(p, a), a, 0, 0) == Statements(TableOf(p, a), a, 0, |a|) == [a];
  }

  /** `x` without star-slash; and without slash-star, before another star too, where comments nest. */
  predicate IsCommentText(p: Profile, x: bytes) {
    && (forall k :: 0 <= k < |x| - 1 ==> !(x[k] == 42 && x[k + 1] == 47))
    && (p.nestedComments ==>
          && (forall k :: 0 <= k < |x| - 1 ==> !(x[k] == 47 && x[k + 1] == 42))
          && (x != [] ==> x[|x| - 1] != 47))
  }

  /** Comment text and the closer: the comment gets one level shallower at the end. */
  lemma {:induction false} CommentTextPasses(p: Profile, d: Depth, s: bytes, i: nat, x: bytes)
    requires IsCommentText(p, x) && i + |x| + 2 <= |s| && s[i..i + |x|] == x
    requires s[i + |x|] == 42 && s[i + |x| + 1] == 47
    ensures EndOf(p, Block(d), s, i) == EndOf(p, if d == 1 then Top else Block(d - 1), s, i + |x| + 2)
    decreases |x|
  {
    if x != [] {
      assert s[i] == x[0] && s[i + 1] == if |x| > 1 then x[1] else 42;
      assert Step(p, Block(d), s, i) == Move(Block(d), 1);
      assert s[i + 1..i + 1 + |x[1..]|] == x[1..];
      CommentTextPasses(p, d, s, i + 1, x[1..]);
    }
  }

  lemma BlockComment(p: Profile, x: bytes)
    requires IsCommentText(p, x)
    ensures var q := [47, 42] + x + [42, 47]; Split(p, q) == [q] && Split(p, q + [59]) == [q]
  {
    var q := [47, 42] + x + [42, 47];
    assert (q + [59])[2..2 + |x|] == x;
    OpensAt(p, q + [59], Block(1), 2);
    CommentTextPasses(p, 1, q + [59], 2, x);
    WholeIsOne(p, q);
  }

  /** `n` comments, one inside the other, around `x`. */
  function Nest(n: nat, x: bytes): bytes {
    if n == 0 then x else [47, 42] + Nest(n - 1, x) + [42, 47]
  }

  /** `x` stands in `s` at `i`, and a comment closer after it. */
  predicate ClosedAt(s: bytes, i: nat, x: bytes) {
    i + |x| + 2 <= |s| && s[i..i + |x|] == x && s[i + |x|] == 42 && s[i + |x| + 1] == 47
  }

  lemma NestParts(s: bytes, i: nat, z: bytes)
    requires ClosedAt(s, i, [47, 42] + z + [42, 47])
    ensures s[i] == 47 && s[i + 1] == 42 && ClosedAt(s, i + 2, z) && ClosedAt(s, i + 4 + |z|, [])
  {
    var y := [47, 42] + z + [42, 47];
    assert s[i] == s[i..i + |y|][0] && s[i + 1] == s[i..i + |y|][1];
    assert s[i + 2..i + 2 + |z|] == s[i..i + |y|][2..2 + |z|] == z;
    assert s[i + 2 + |z|] == s[i..i + |y|][2 + |z|] && s[i + 3 + |z|] == s[i..i + |y|][3 + |z|];
  }

  lemma {:induction false} NestPasses(p: Profile, d: Depth, s: bytes, i: nat, n: nat, x: bytes)
    requires p.nestedComments && 42 !in x && 47 !in x && ClosedAt(s, i, Nest(n, x))
    ensures EndOf(p, Block(d), s, i) == EndOf(p, if d == 1 then Top else Block(d - 1), s, i + |Nest(n, x)| + 2)
    decreases n
  {
    if n == 0 {
      CommentTextPasses(p, d, s, i, x);
    } else {
      var z := Nest(n - 1, x);
      assert Nest(n, x) == [47, 42] + z + [42, 47];
      NestParts(s, i, z);
      StepIntoComment(p, d, s, i);
      NestPasses(p, d + 1, s, i + 2, n - 1, x);
      StepOutOfComment(p, d, s, i + 4 + |z|);
    }
  }

  lemma StepIntoComment(p: Profile, d: Depth, s: bytes, i: nat)
    requires p.nestedComments && i + 2 <= |s| && s[i] == 47 && s[i + 1] == 42
    ensures EndOf(p, Block(d), s, i) == EndOf(p, Block(d + 1), s, i + 2)
  {
  }

  lemma StepOutOfComment(p: Profile, d: Depth, s: bytes, i: nat)
    requires ClosedAt(s, i, [])
    ensures EndOf(p, Block(d), s, i) == EndOf(p, if d == 1 then Top else Block(d - 1), s, i + 2)
  {
  }

  /** Comments in comments, as deep as one likes, where they nest. */
  lemma NestedComment(p: Profile, n: nat, x: bytes)
    requires p.nestedComments && 42 !in x && 47 !in x && n > 0
    ensures var q := Nest(n, x); Split(p, q) == [q] && Split(p, q + [59]) == [q]
  {
    var q, z := Nest(n, x), Nest(n - 1, x);
    assert (q + [59])[2..2 + |z|] == z;
    OpensAt(p, q + [59], Block(1), 2);
    NestPasses(p, 1, q + [59], 2, n - 1, x);
    WholeIsOne(p, q);
  }

  // ---------------------------------------------------------------- dollar quotes

  /** A letter or an underscore, and after the first byte also a digit. */
  predicate IsTagName(name: bytes) {
    forall k :: 0 <= k < |name| ==>
      || 'A' as int <= name[k] <= 'Z' as int || 'a' as int <= name[k] <= 'z' as int || name[k] == '_' as int
      || (k > 0 && '0' as int <= name[k] <= '9' as int)
  }

  lemma TagOfName(name: bytes)
    ensures IsDollarTag([36] + name + [36]) <==> IsTagName(name)
  {
    var t := [36] + name + [36];
    if IsDollarTag(t) {
      forall k | 0 <= k < |name|
        ensures IsTagCont(name[k]) && (k == 0 ==> IsTagStart(name[k]))
      {
        assert t[k + 1] == name[k];
      }
    }
    if IsTagName(name) {
      forall k | 1 < k < |t| - 1
        ensures IsTagCont(t[k])
      {
        assert t[k] == name[k - 1];
      }
      assert |t| > 2 ==> t[1] == name[0];
    }
  }

  /** Text between two equal dollar tags, where there is dollar quoting; the tag occurs at its ends alone. */
  lemma DollarQuoted(p: Profile, name: bytes, x: bytes)
    requires p.dollarQuoting && IsTagName(name)
    requires var t := [36] + name + [36]; forall k: nat :: k < |x| ==> !OccursAt(t, x + t, k)
    ensures var t := [36] + name + [36]; var q := t + x + t; Split(p, q) == [q] && Split(p, q + [59]) == [q]
  {
    var t := [36] + name + [36];
    var q := t + x + t;
    TagOfName(name);
    assert (q + [59])[0..|t|] == t;
    forall k: nat | |t| <= k < |q| - |t|
      ensures !OccursAt(t, q + [59], k)
    {
      assert !OccursAt(t, x + t, k - |t|);
      assert (q + [59])[k..k + |t|] == (x + t)[k - |t|..k - |t| + |t|];
    }
    assert q[|q| - |t|..] == t;
    EndsAtCloser(p, Dollar(t), |t|, t, q);
  }

  // ---------------------------------------------------------------- plain text

  /** `s[start..]` cut at every semicolon from `i` on. */
  function CutEverywhere(s: bytes, start: nat, i: nat): seq<bytes>
    requires start <= i <= |s|
    decreases |s| - i
  {
    if i == |s| then if start == i then [] else [s[start..i]]
    else if s[i] == 59 then [s[start..i]] + CutEverywhere(s, i + 1, i + 1)
    else CutEverywhere(s, start, i + 1)
  }

  lemma {:induction false} PlainFrom(p: Profile, s: bytes, start: nat, i: nat)
    requires start <= i <= |s| && forall k: nat :: k < |s| ==> OpensNothing(p, s, k)
    ensures Statements(TableOf(p, s), s, start, i) == CutEverywhere(s, start, i)
    decreases |s| - i
  {
    if i < |s| {
      OpenerExactly(p, s, i, Top, 1);
      if s[i] == 59 {
        PlainFrom(p, s, i + 1, i + 1);
      } else {
        PlainFrom(p, s, start, i + 1);
      }
    }
  }

  /** Text in which nothing opens is cut at every semicolon. */
  lemma PlainText(p: Profile, s: bytes)
    requires forall k: nat :: k < |s| ==> OpensNothing(p, s, k)
    ensures Split(p, s) == CutEverywhere(s, 0, 0)
  {
    PlainFrom(p, s, 0, 0);
  }

  /** In particular text without quotes, pairs that open comments, and the bytes of the dialect's own quotes. */
  lemma PlainBytes(p: Profile, s: bytes)
    requires 39 !in s && 34 !in s
    requires forall k :: 0 <= k < |s| - 1 ==> !(s[k] == 45 && s[k + 1] == 45) && !(s[k] == 47 && s[k + 1] == 42)
    requires (p.dollarQuoting ==> 36 !in s) && (p.backticks ==> 96 !in s) && (p.brackets ==> 91 !in s)
    ensures Split(p, s) == CutEverywhere(s, 0, 0)
  {
    forall k: nat | k < |s|
      ensures OpensNothing(p, s, k)
    {
      forall tag | IsDollarTag(tag) && OccursAt(tag, s, k)
        ensures s[k] == 36
      {
        assert s[k] == s[k..k + |tag|][0];
      }
    }
    PlainText(p, s);
  }

  // ---------------------------------------------------------------- what the switches switch

  /** A byte twice, with a semicolon between. */
  lemma PairIsCut(p: Profile, a: byte, b: byte)
    requires a != 59 && b != 59 && Split(p, [a, 59, b]) == CutEverywhere([a, 59, b], 0, 0)
    ensures Split(p, [a] + [59] + [b]) == [[a], [b]]
  {
    var s := [a, 59, b];
    assert s == [a] + [59] + [b];
    assert s[0..1] == [a] && s[2..3] == [b];
    assert CutEverywhere(s, 2, 2) == CutEverywhere(s, 2, 3) == [[b]];
    assert CutEverywhere(s, 0, 0) == CutEverywhere(s, 0, 1) == [[a]] + [[b]];
  }

  /** Backticks quote exactly where the dialect has them. */
  lemma BackticksExactly(p: Profile)
    ensures p.backticks <==> forall x: bytes :: 96 !in x ==> Split(p, [96] + x + [96]) == [[96] + x + [96]]
    ensures !p.backticks ==> Split(p, [96] + [59] + [96]) == [[96], [96]]
  {
    if p.backticks {
      forall x: bytes | 96 !in x
        ensures Split(p, [96] + x + [96]) == [[96] + x + [96]]
      {
        BacktickQuoted(p, x);
      }
    } else {
      PlainBytes(p, [96, 59, 96]);
      PairIsCut(p, 96, 96);
    }
  }

  /** And so do brackets. */
  lemma BracketsExactly(p: Profile)
    ensures p.brackets <==> forall x: bytes :: 93 !in x ==> Split(p, [91] + x + [93]) == [[91] + x + [93]]
    ensures !p.brackets ==> Split(p, [91] + [59] + [93]) == [[91], [93]]
  {
    if p.brackets {
      forall x: bytes | 93 !in x
        ensures Split(p, [91] + x + [93]) == [[91] + x + [93]]
      {
        BracketQuoted(p, x);
      }
    } else {
      PlainBytes(p, [91, 59, 93]);
      PairIsCut(p, 91, 93);
    }
  }

  /** `$$;$$` is one statement exactly where there is dollar quoting. */
  lemma DollarsExactly(p: Profile)
    ensures Split(p, [36, 36, 59, 36, 36]) == if p.dollarQuoting then [[36, 36, 59, 36, 36]] else [[36, 36], [36, 36]]
  {
    var s := [36, 36, 59, 36, 36];
    if p.dollarQuoting {
      var t: bytes := [36] + [] + [36];
      assert t == [36, 36] && t + [59] + t == s && [59] + t == [59, 36, 36];
      assert ([59] + t)[0..2] == [59, 36];
      DollarQuoted(p, [], [59]);
    } else {
      PlainBytes(p, s);
      assert s[0..2] == [36, 36] && s[3..5] == [36, 36];
      assert CutEverywhere(s, 3, 3) == CutEverywhere(s, 3, 4) == CutEverywhere(s, 3, 5) == [[36, 36]];
      assert CutEverywhere(s, 0, 0) == CutEverywhere(s, 0, 1) == CutEverywhere(s, 0, 2) == [[36, 36]] + [[36, 36]];
    }
  }

  /** `s` is `E'\';'`. */
  predicate IsEscapedQuote(s: bytes) {
    |s| == 6 && s[0] == 69 && s[1] == 39 && s[2] == 92 && s[3] == 39 && s[4] == 59 && s[5] == 39
  }

  lemma EscapeHides(p: Profile, s: bytes)
    requires p.eStrings && IsEscapedQuote(s)
    ensures Split(p, s) == [s]
  {
    OpensAt(p, s, Single(true), 2);
    assert EndOf(p, Single(true), s, 2) == EndOf(p, Single(true), s, 4) == EndOf(p, Single(true), s, 5) == 6;
    UnfinishedIsOne(p, s);
  }

  lemma EscapeShows(p: Profile, s: bytes)
    requires !p.eStrings && IsEscapedQuote(s)
    ensures Split(p, s) == [s[0..4], s[5..6]]
  {
    var ends := TableOf(p, s);
    assert ends[0] == 1 by { OpenerExactly(p, s, 0, Top, 1); }
    assert ends[1] == 4 by {
      OpenerExactly(p, s, 1, Single(false), 1);
      assert EndOf(p, Single(false), s, 2) == EndOf(p, Single(false), s, 3) == 4;
    }
    assert ends[5] == 6 by {
      OpenerExactly(p, s, 5, Single(false), 1);
    }
    TwoStatements(ends, s, 1, 4);
  }

  /** A lexeme, another one, a semicolon and one more to the end. */
  lemma TwoStatements(ends: LexemeTable, s: bytes, i: nat, j: nat)
    requires |ends| == |s| && 0 < i <= j && j + 1 < |s| && ends[0] == i && s[0] != 59
    requires (if i == j then true else ends[i] == j && s[i] != 59) && s[j] == 59
    requires ends[j + 1] == |s| && s[j + 1] != 59
    ensures Statements(ends, s, 0, 0) == [s[0..j], s[j + 1..|s|]]
  {
    assert Statements(ends, s, j + 1, j + 1) == Statements(ends, s, j + 1, |s|) == [s[j + 1..|s|]];
    assert Statements(ends, s, 0, j) == [s[0..j]] + [s[j + 1..|s|]];
    assert Statements(ends, s, 0, 0) == Statements(ends, s, 0, i) == Statements(ends, s, 0, j);
  }

  /** In `E'\';'` the backslash escapes the quote exactly where there are E-strings. */
  lemma EStringsExactly(p: Profile, s: bytes)
    requires s == [69, 39, 92, 39, 59, 39]
    ensures Split(p, s) == if p.eStrings then [s] else [[69, 39, 92, 39], [39]]
  {
    if p.eStrings {
      EscapeHides(p, s);
    } else {
      EscapeShows(p, s);
      assert s[0..4] == [69, 39, 92, 39] && s[5..6] == [39];
    }
  }

  /** `s` is a comment with a comment and a semicolon in it. */
  predicate IsCommentInComment(s: bytes) {
    && |s| == 9 && s[0] == 47 && s[1] == 42 && s[2] == 47 && s[3] == 42 && s[4] == 42 && s[5] == 47
    && s[6] == 59 && s[7] == 42 && s[8] == 47
  }

  lemma NestingHides(p: Profile, s: bytes)
    requires p.nestedComments && IsCommentInComment(s)
    ensures Split(p, s) == [s]
  {
    OpensAt(p, s, Block(1), 2);
    StepIntoComment(p, 1, s, 2);
    StepOutOfComment(p, 2, s, 4);
    assert EndOf(p, Block(1), s, 6) == EndOf(p, Block(1), s, 7);
    StepOutOfComment(p, 1, s, 7);
    UnfinishedIsOne(p, s);
  }

  lemma FlatCommentShows(p: Profile, s: bytes)
    requires !p.nestedComments && IsCommentInComment(s)
    ensures Split(p, s) == [s[0..6], s[7..9]]
  {
    var ends := TableOf(p, s);
    assert ends[0] == 6 by {
      OpensAt(p, s, Block(1), 2);
      assert EndOf(p, Block(1), s, 2) == EndOf(p, Block(1), s, 3) == EndOf(p, Block(1), s, 4);
      StepOutOfComment(p, 1, s, 4);
    }
    OpenerExactly(p, s, 7, Top, 1);
    OpenerExactly(p, s, 8, Top, 1);
    assert ends[7] == 8 && ends[8] == 9;
    assert Statements(ends, s, 7, 7) == Statements(ends, s, 7, 8) == Statements(ends, s, 7, 9) == [s[7..9]];
    assert Statements(ends, s, 0, 0) == Statements(ends, s, 0, 6) == [s[0..6]] + [s[7..9]];
  }

  /** A comment in a comment hides the text after it exactly where comments nest. */
  lemma NestingExactly(p: Profile, s: bytes)
    requires s == [47, 42, 47, 42, 42, 47, 59, 42, 47]
    ensures Split(p, s) == if p.nestedComments then [s] else [[47, 42, 47, 42, 42, 47], [42, 47]]
  {
    if p.nestedComments {
      NestingHides(p, s);
    } else {
      FlatCommentShows(p, s);
      assert s[0..6] == [47, 42, 47, 42, 42, 47] && s[7..9] == [42, 47];
    }
  }
}
