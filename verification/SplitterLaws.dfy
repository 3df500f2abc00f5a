/** The laws of the statement splitter, for every dialect profile and every input. */
module SplitterLaws {
  import opened Bytes
  import opened Lexemes
  import opened Splitter

  const TERMINATOR: bytes := [SEMICOLON]

  // ---------------------------------------------------------------- the cuts are the lone semicolons

  /** `bs` lists the ends of lexemes that write `s[i..]`, starting with `i` itself. */
  ghost predicate Boundaries(p: Profile, s: bytes, i: nat, bs: seq<nat>) {
    && bs != [] && bs[0] == i && bs[|bs| - 1] == |s|
    && forall k :: 0 <= k < |bs| - 1 ==> IsLexeme(p, s, bs[k], bs[k + 1])
  }

  /** The ends of the lexemes passed from the lexeme end `i` on, `i` included. */
  function Ends(ends: LexemeTable, i: nat): seq<nat>
    requires i <= |ends|
    decreases |ends| - i
  {
    if i == |ends| then [i] else [i] + Ends(ends, ends[i])
  }

  /** Every input is a sequence of lexemes ... */
  lemma {:induction false} BoundariesExist(p: Profile, s: bytes, i: nat)
    requires i <= |s|
    ensures Boundaries(p, s, i, Ends(TableOf(p, s), i))
    decreases |s| - i
  {
    if i < |s| {
      var ends := TableOf(p, s);
      var e := ends[i];
      LexemeIsEnd(p, s, i, e);
      BoundariesExist(p, s, e);
      var bs, rest := Ends(ends, i), Ends(ends, e);
      forall k | 0 <= k < |bs| - 1
        ensures IsLexeme(p, s, bs[k], bs[k + 1])
      {
        if k > 0 { assert bs[k] == rest[k - 1] && bs[k + 1] == rest[k]; }
      }
    }
  }

  /** ... in exactly one way. */
  lemma {:induction false} BoundariesUnique(p: Profile, s: bytes, i: nat, bs: seq<nat>)
    requires i <= |s| && Boundaries(p, s, i, bs)
    ensures bs == Ends(TableOf(p, s), i)
    decreases |bs|
  {
    if |bs| == 1 {
      assert bs == [i];
    } else {
      assert IsLexeme(p, s, bs[0], bs[0 + 1]);
      LexemeIsEnd(p, s, i, bs[1]);
      var rest := bs[1..];
      forall k | 0 <= k < |rest| - 1
        ensures IsLexeme(p, s, rest[k], rest[k + 1])
      {
        assert rest[k] == bs[k + 1] && rest[k + 1] == bs[k + 1 + 1];
      }
      BoundariesUnique(p, s, bs[1], rest);
      assert bs == [i] + rest;
    }
  }

  /** The lexemes that are a semicolon: those that start with one. */
  function LoneSemicolons(s: bytes, bs: seq<nat>): seq<nat> {
    if bs == [] then []
    else (if bs[0] < |s| && s[bs[0]] == SEMICOLON then [bs[0]] else []) + LoneSemicolons(s, bs[1..])
  }

  /** `s[start..]` cut at the positions `cuts`; the bytes there are dropped, and so is an empty tail. */
  ghost function CutAt(s: bytes, start: nat, cuts: seq<nat>): seq<bytes>
    decreases |cuts|
  {
    if cuts == [] then if start < |s| then [s[start..]] else []
    else if start <= cuts[0] < |s| then [s[start..cuts[0]]] + CutAt(s, cuts[0] + 1, cuts[1..])
    else []
  }

  ghost predicate SemicolonsStandAlone(ends: LexemeTable, s: bytes)
    requires |ends| == |s|
  {
    forall k :: 0 <= k < |s| && s[k] == SEMICOLON ==> ends[k] == k + 1
  }

  lemma LoneCons(s: bytes, i: nat, bs: seq<nat>)
    requires i < |s|
    ensures LoneSemicolons(s, [i] + bs) ==
            if s[i] == SEMICOLON then [i] + LoneSemicolons(s, bs) else LoneSemicolons(s, bs)
  {
    assert ([i] + bs)[1..] == bs;
    assert [] + LoneSemicolons(s, bs) == LoneSemicolons(s, bs);
  }

  lemma CutAtCons(s: bytes, start: nat, k: nat, cuts: seq<nat>)
    requires start <= k < |s|
    ensures CutAt(s, start, [k] + cuts) == [s[start..k]] + CutAt(s, k + 1, cuts)
  {
    assert ([k] + cuts)[1..] == cuts;
  }

  /** The top-level semicolons from the lexeme end `i` on. */
  function Cuts(ends: LexemeTable, s: bytes, i: nat): seq<nat>
    requires |ends| == |s| && i <= |s|
    decreases |s| - i
  {
    if i == |s| then [] else (if s[i] == SEMICOLON then [i] else []) + Cuts(ends, s, ends[i])
  }

  lemma {:induction false} CutsAreLone(ends: LexemeTable, s: bytes, i: nat)
    requires |ends| == |s| && i <= |s|
    ensures LoneSemicolons(s, Ends(ends, i)) == Cuts(ends, s, i)
    decreases |s| - i
  {
    if i == |s| {
      assert LoneSemicolons(s, [i]) == [];
    } else {
      CutsAreLone(ends, s, ends[i]);
      LoneCons(s, i, Ends(ends, ends[i]));
      assert [] + Cuts(ends, s, ends[i]) == Cuts(ends, s, ends[i]);
    }
  }

  lemma {:induction false} StatementsAreCuts(ends: LexemeTable, s: bytes, start: nat, i: nat)
    requires |ends| == |s| && start <= i <= |s|
    requires SemicolonsStandAlone(ends, s)
    ensures Statements(ends, s, start, i) == CutAt(s, start, Cuts(ends, s, i))
    decreases |s| - i
  {
    if i == |s| {
      assert s[start..] == s[start..i];
    } else if s[i] == SEMICOLON {
      StatementsAreCuts(ends, s, i + 1, i + 1);
      CutAtCons(s, start, i, Cuts(ends, s, i + 1));
    } else {
      StatementsAreCuts(ends, s, start, ends[i]);
      assert [] + Cuts(ends, s, ends[i]) == Cuts(ends, s, ends[i]);
    }
  }

  /**
    However the input is written as lexemes, the splitter cuts it exactly at the semicolons that
    are lexemes by themselves.
   */
  lemma SplitCutsAtLoneSemicolons(p: Profile, s: bytes, bs: seq<nat>)
    requires Boundaries(p, s, 0, bs)
    ensures Split(p, s) == CutAt(s, 0, LoneSemicolons(s, bs))
  {
    BoundariesUnique(p, s, 0, bs);
    CutsAreLone(TableOf(p, s), s, 0);
    StatementsAreCuts(TableOf(p, s), s, 0, 0);
  }

  // ---------------------------------------------------------------- what a lexeme depends on

  /** `n` bytes of `s` from `i` and of `t` from `j` are the same. */
  ghost predicate Same(s: bytes, i: nat, t: bytes, j: nat, n: nat) {
    i + n <= |s| && j + n <= |t| && forall k :: i <= k < i + n ==> s[k] == t[k - i + j]
  }

  /** Both inputs stop here, or a semicolon follows in `s` and, if anything does, in `t`. */
  predicate Halt(s: bytes, i: nat, t: bytes, j: nat) {
    || (i == |s| && j == |t|)
    || (i < |s| && s[i] == SEMICOLON && (j == |t| || (j < |t| && t[j] == SEMICOLON)))
  }

  lemma {:induction false} TagBodyTransfers(s: bytes, i: nat, t: bytes, j: nat, n: nat)
    requires Same(s, i, t, j, n) && Halt(s, i + n, t, j + n)
    ensures TagBodyEnd(s, i) - i == TagBodyEnd(t, j) - j <= n
    decreases n
  {
    if n > 0 {
      assert s[i] == t[j];
      TagBodyTransfers(s, i + 1, t, j + 1, n - 1);
    }
  }

  lemma SameLater(s: bytes, i: nat, t: bytes, j: nat, n: nat, k: nat)
    requires Same(s, i, t, j, n) && k <= n
    ensures Same(s, i + k, t, j + k, n - k)
  {
  }

  lemma SameSlice(s: bytes, i: nat, t: bytes, j: nat, n: nat, x: nat, y: nat)
    requires Same(s, i, t, j, n) && x <= y <= n
    ensures s[i + x..i + y] == t[j + x..j + y]
  {
  }

  lemma TagTransfers(s: bytes, i: nat, t: bytes, j: nat, n: nat)
    requires n > 0 && Same(s, i, t, j, n) && Halt(s, i + n, t, j + n)
    ensures TagLength(s, i) == TagLength(t, j) <= n
  {
    assert s[i] == t[j];
    if n >= 2 {
      assert s[i + 1] == t[j + 1];
      SameLater(s, i, t, j, n, 2);
      TagBodyTransfers(s, i + 2, t, j + 2, n - 2);
      var k := TagBodyEnd(s, i + 2) - i;
      if k < n { assert s[i + k] == t[j + k]; }
    }
  }

  lemma OpenerTransfers(p: Profile, s: bytes, i: nat, t: bytes, j: nat, n: nat)
    requires n > 0 && Same(s, i, t, j, n) && Halt(s, i + n, t, j + n)
    ensures Opener(p, s, i) == Opener(p, t, j) && Opener(p, s, i).eaten <= n
  {
    assert s[i] == t[j];
    if n >= 2 { assert s[i + 1] == t[j + 1]; }
    TagTransfers(s, i, t, j, n);
    SameSlice(s, i, t, j, n, 0, TagLength(s, i));
  }

  lemma StepTransfers(p: Profile, c: Context, s: bytes, i: nat, t: bytes, j: nat, n: nat)
    requires n > 0 && !c.Top? && Same(s, i, t, j, n) && Halt(s, i + n, t, j + n)
    requires Step(p, c, s, i).eaten <= n
    ensures Step(p, c, s, i) == Step(p, c, t, j)
  {
    assert s[i] == t[j];
    if n >= 2 { assert s[i + 1] == t[j + 1]; }
    if c.Dollar? {
      var k := |c.tag|;
      if k <= n {
        SameSlice(s, i, t, j, n, 0, k);
      } else if j + k <= |t| {
        assert t[j..j + k][n] == SEMICOLON;
      }
    }
  }

  /** A context that ends before the halt ends at the same distance in both inputs. */
  lemma {:induction false} EndTransfers(p: Profile, c: Context, s: bytes, i: nat, t: bytes, j: nat, n: nat)
    requires Same(s, i, t, j, n) && Halt(s, i + n, t, j + n)
    requires EndOf(p, c, s, i) <= i + n
    ensures EndOf(p, c, t, j) - j == EndOf(p, c, s, i) - i
    decreases n, 0
  {
    if !c.Top? && n > 0 {
      var m := Step(p, c, s, i);
      StepTransfers(p, c, s, i, t, j, n);
      EndTransfersLater(p, m.next, s, i, t, j, n, m.eaten);
    }
  }

  /** The same, `k` bytes further on. */
  lemma {:induction false} EndTransfersLater(
    p: Profile, c: Context, s: bytes, i: nat, t: bytes, j: nat, n: nat, k: nat)
    requires Same(s, i, t, j, n) && Halt(s, i + n, t, j + n) && 0 < k <= n
    requires EndOf(p, c, s, i + k) <= i + n
    ensures EndOf(p, c, t, j + k) - j == EndOf(p, c, s, i + k) - i
    decreases n - k, 1
  {
    SameLater(s, i, t, j, n, k);
    EndTransfers(p, c, s, i + k, t, j + k, n - k);
  }

  lemma LexemeTransfers(p: Profile, s: bytes, i: nat, t: bytes, j: nat, n: nat)
    requires n > 0 && Same(s, i, t, j, n) && Halt(s, i + n, t, j + n)
    requires LexemeEnd(p, s, i) <= i + n
    ensures LexemeEnd(p, t, j) - j == LexemeEnd(p, s, i) - i
  {
    OpenerTransfers(p, s, i, t, j, n);
    LexemeAfterOpener(p, Opener(p, s, i), s, i, t, j, n);
  }

  /** The opener `m` is passed in both inputs. */
  lemma LexemeAfterOpener(p: Profile, m: Move, s: bytes, i: nat, t: bytes, j: nat, n: nat)
    requires 0 < m.eaten <= n && Same(s, i, t, j, n) && Halt(s, i + n, t, j + n)
    requires Opener(p, s, i) == m && Opener(p, t, j) == m && LexemeEnd(p, s, i) <= i + n
    ensures LexemeEnd(p, t, j) - j == LexemeEnd(p, s, i) - i
  {
    EndTransfersLater(p, m.next, s, i, t, j, n, m.eaten);
  }

  /** How the lexemes of `s` from `i` on relate to those of `t` from `j` on. */
  lemma TableTransfers(p: Profile, s: bytes, i: nat, t: bytes, j: nat, n: nat)
    requires Same(s, i, t, j, n) && Halt(s, i + n, t, j + n)
    ensures SameLexemes(TableOf(p, s), i, TableOf(p, t), j, n)
  {
    var (es, et) := (TableOf(p, s), TableOf(p, t));
    forall k | i <= k < i + n && es[k] <= i + n
      ensures et[k - i + j] - j == es[k] - i
    {
      SameLater(s, i, t, j, n, k - i);
      LexemeTransfers(p, s, k, t, k - i + j, n - (k - i));
    }
  }

  /** The lexemes that lie within `n` bytes are at the same places in both tables. */
  ghost predicate SameLexemes(es: LexemeTable, i: nat, et: LexemeTable, j: nat, n: nat) {
    && i + n <= |es| && j + n <= |et|
    && forall k :: i <= k < i + n && es[k] <= i + n ==> et[k - i + j] - j == es[k] - i
  }

  // ---------------------------------------------------------------- restart

  /** `k` is the end of a lexeme, counting from the lexeme end `i`. */
  predicate Reaches(ends: LexemeTable, i: nat, k: nat)
    requires i <= |ends|
    ensures Reaches(ends, i, k) ==> i <= k
    decreases |ends| - i
  {
    i == k || (i < |ends| && Reaches(ends, ends[i], k))
  }

  /** The last byte of `s` is a semicolon that is a lexeme by itself. */
  predicate TerminatedFrom(ends: LexemeTable, s: bytes, i: nat)
    requires |ends| == |s| && i <= |s|
  {
    i < |s| && s[|s| - 1] == SEMICOLON && Reaches(ends, i, |s| - 1)
  }

  predicate Terminated(p: Profile, s: bytes) {
    TerminatedFrom(TableOf(p, s), s, 0)
  }

  /** Splitting does not see what comes before the cursor: `t` is `b` behind `n` more bytes. */
  lemma {:induction false} SplitShifts(et: LexemeTable, t: bytes, n: nat, eb: LexemeTable, b: bytes, start: nat, i: nat)
    requires start <= i <= |b| == |eb| && |et| == |t| == n + |b|
    requires Same(b, 0, t, n, |b|) && SameLexemes(eb, 0, et, n, |b|)
    ensures Statements(et, t, n + start, n + i) == Statements(eb, b, start, i)
    decreases |b| - i
  {
    SameSlice(b, 0, t, n, |b|, start, i);
    if i < |b| {
      assert b[i] == t[n + i];
      if b[i] == SEMICOLON {
        SplitShifts(et, t, n, eb, b, i + 1, i + 1);
      } else {
        SplitShifts(et, t, n, eb, b, start, eb[i]);
      }
    }
  }

  lemma ConsAppend(x: bytes, rest: seq<bytes>, tail: seq<bytes>)
    ensures [x] + rest + tail == [x] + (rest + tail)
  {
  }

  /** `t` goes on after the terminated input `a`. */
  lemma {:induction false} RestartFrom(ea: LexemeTable, a: bytes, et: LexemeTable, t: bytes, start: nat, i: nat)
    requires start <= i <= |a| == |ea| <= |t| == |et| && SemicolonsStandAlone(ea, a) && TerminatedFrom(ea, a, i)
    requires Same(a, 0, t, 0, |a|) && SameLexemes(ea, 0, et, 0, |a| - 1)
    ensures Statements(et, t, start, i) == Statements(ea, a, start, i) + Statements(et, t, |a|, |a|)
    decreases |a| - i
  {
    SameSlice(a, 0, t, 0, |a|, start, i);
    assert a[i] == t[i];
    if a[i] == SEMICOLON {
      if i < |a| - 1 {
        RestartFrom(ea, a, et, t, i + 1, i + 1);
      }
      ConsAppend(a[start..i], Statements(ea, a, i + 1, i + 1), Statements(et, t, |a|, |a|));
    } else {
      RestartFrom(ea, a, et, t, start, ea[i]);
    }
  }

  lemma ConcatIsSame(a: bytes, b: bytes)
    ensures Same(a, 0, a + b, 0, |a|) && Same(b, 0, a + b, |a|, |b|)
  {
  }

  lemma SemicolonLexemes(p: Profile, s: bytes)
    ensures SemicolonsStandAlone(TableOf(p, s), s)
  {
  }

  /** The restart law: after a top-level semicolon the splitter starts afresh. */
  lemma Restart(p: Profile, a: bytes, b: bytes)
    requires Terminated(p, a)
    ensures Split(p, a + b) == Split(p, a) + Split(p, b)
  {
    var t := a + b;
    var (ea, eb, et) := (TableOf(p, a), TableOf(p, b), TableOf(p, t));
    ConcatIsSame(a, b);
    SemicolonLexemes(p, a);
    TableTransfers(p, a, 0, t, 0, |a| - 1);
    RestartFrom(ea, a, et, t, 0, 0);
    TableTransfers(p, b, 0, t, |a|, |b|);
    SplitShifts(et, t, |a|, eb, b, 0, 0);
  }

  /** `t` is `a` and one more byte, a semicolon. */
  ghost predicate Ended(a: bytes, t: bytes) {
    |t| == |a| + 1 && Same(a, 0, t, 0, |a|) && t[|a|] == SEMICOLON
  }

  lemma StepIgnoresSemicolon(p: Profile, c: Context, a: bytes, t: bytes, i: nat)
    requires i < |a| && Ended(a, t) && !c.Top? && i + Step(p, c, a, i).eaten < |a|
    ensures Step(p, c, t, i) == Step(p, c, a, i)
  {
    assert a[i] == t[i];
    if i + 1 < |a| { assert a[i + 1] == t[i + 1]; }
    if c.Dollar? {
      var n := |c.tag|;
      if i + n <= |a| {
        SameSlice(a, 0, t, 0, |a|, i, i + n);
      } else if i + n <= |t| {
        assert t[i..i + n][|a| - i] == SEMICOLON;
      }
    }
  }

  /** A context that is left before the end of the input does not see a semicolon put after it. */
  lemma {:induction false} EndIgnoresSemicolon(p: Profile, c: Context, a: bytes, t: bytes, i: nat)
    requires i <= |a| && Ended(a, t) && EndOf(p, c, a, i) < |a|
    ensures EndOf(p, c, t, i) == EndOf(p, c, a, i)
    decreases |a| - i
  {
    if !c.Top? {
      var m := Step(p, c, a, i);
      StepIgnoresSemicolon(p, c, a, t, i);
      EndIgnoresSemicolon(p, m.next, a, t, i + m.eaten);
    }
  }

  /** A semicolon put at the end is a lexeme of its own or joins the unfinished last lexeme. */
  lemma LexemeIgnoresSemicolon(p: Profile, a: bytes, t: bytes, i: nat)
    requires i < |a| && Ended(a, t)
    ensures LexemeEnd(p, t, i) == LexemeEnd(p, a, i) || (LexemeEnd(p, a, i) == |a| && LexemeEnd(p, t, i) == |t|)
  {
    var n := |a| - i;
    assert Same(t, i, a, i, n);
    if LexemeEnd(p, t, i) <= |a| {
      LexemeTransfers(p, t, i, a, i, n);
    } else if LexemeEnd(p, a, i) < |a| {
      OpenerTransfers(p, t, i, a, i, n);
      var Move(c, k) := Opener(p, a, i);
      EndIgnoresSemicolon(p, c, a, t, i + k);
    }
  }

  /** Ending an unterminated input adds no statement. */
  lemma {:induction false} SemicolonAddsNothing(
    ea: LexemeTable, a: bytes, et: LexemeTable, t: bytes, start: nat, i: nat)
    requires start <= i <= |a| == |ea| && start < |a| && Ended(a, t) && |et| == |t| && !TerminatedFrom(ea, a, i)
    requires forall k :: 0 <= k < |a| ==> et[k] == ea[k] || (ea[k] == |a| && et[k] == |t|)
    requires SemicolonsStandAlone(ea, a)
    ensures |Statements(et, t, start, i)| == |Statements(ea, a, start, i)|
    decreases |a| - i
  {
    if i < |a| {
      assert a[i] == t[i];
      if a[i] == SEMICOLON {
        SemicolonAddsNothing(ea, a, et, t, i + 1, i + 1);
      } else if et[i] == ea[i] {
        SemicolonAddsNothing(ea, a, et, t, start, ea[i]);
      }
    }
  }

  /** The restart law holds for every continuation exactly at the start and after a top-level semicolon. */
  lemma RestartExactly(p: Profile, a: bytes)
    ensures (forall b: bytes :: Split(p, a + b) == Split(p, a) + Split(p, b)) <==> a == [] || Terminated(p, a)
  {
    if a == [] {
      assert forall b: bytes :: a + b == b;
      assert Split(p, a) == [];
    } else if Terminated(p, a) {
      forall b: bytes
        ensures Split(p, a + b) == Split(p, a) + Split(p, b)
      {
        Restart(p, a, b);
      }
    } else {
      RestartFails(p, a);
    }
  }

  lemma RestartFails(p: Profile, a: bytes)
    requires a != [] && !Terminated(p, a)
    ensures Split(p, a + TERMINATOR) != Split(p, a) + Split(p, TERMINATOR)
  {
    var t := a + TERMINATOR;
    var (ea, et, e1) := (TableOf(p, a), TableOf(p, t), TableOf(p, TERMINATOR));
    assert Ended(a, t);
    forall k | 0 <= k < |a|
      ensures et[k] == ea[k] || (ea[k] == |a| && et[k] == |t|)
    {
      LexemeIgnoresSemicolon(p, a, t, k);
    }
    SemicolonAddsNothing(ea, a, et, t, 0, 0);
    assert Statements(e1, TERMINATOR, 0, 0) == [TERMINATOR[0..0]] + Statements(e1, TERMINATOR, 1, 1);
  }

  // ---------------------------------------------------------------- lossless

  /** The statements joined by semicolons. */
  function Join(xs: seq<bytes>): bytes {
    if xs == [] then []
    else if |xs| == 1 then xs[0]
    else xs[0] + TERMINATOR + Join(xs[1..])
  }

  lemma {:induction false} EmptyOnlyAtEnd(ends: LexemeTable, s: bytes, start: nat, i: nat)
    requires |ends| == |s| && start <= i <= |s|
    ensures Statements(ends, s, start, i) == [] <==> start == |s|
    decreases |s| - i
  {
    if i < |s| && s[i] != SEMICOLON {
      EmptyOnlyAtEnd(ends, s, start, ends[i]);
    }
  }

  lemma CutOut(s: bytes, start: nat, i: nat)
    requires start <= i < |s| && s[i] == SEMICOLON
    ensures s[start..] == s[start..i] + TERMINATOR + s[i + 1..]
  {
  }

  lemma JoinCons(x: bytes, rest: seq<bytes>, tail: bytes)
    ensures Join([x] + rest) + tail == if rest == [] then x + tail else x + TERMINATOR + (Join(rest) + tail)
  {
    assert ([x] + rest)[1..] == rest;
    if rest != [] {
      assert x + TERMINATOR + Join(rest) + tail == x + TERMINATOR + (Join(rest) + tail);
    }
  }

  lemma {:induction false} LosslessFrom(ends: LexemeTable, s: bytes, start: nat, i: nat)
    requires |ends| == |s| && start <= i <= |s|
    requires SemicolonsStandAlone(ends, s)
    ensures s[start..] == Join(Statements(ends, s, start, i)) + if TerminatedFrom(ends, s, i) then TERMINATOR else []
    decreases |s| - i
  {
    if i == |s| {
      assert s[start..] == s[start..i];
    } else if s[i] == SEMICOLON {
      EmptyOnlyAtEnd(ends, s, i + 1, i + 1);
      LosslessFrom(ends, s, i + 1, i + 1);
      CutOut(s, start, i);
      JoinCons(s[start..i], Statements(ends, s, i + 1, i + 1), if TerminatedFrom(ends, s, i) then TERMINATOR else []);
    } else {
      LosslessFrom(ends, s, start, ends[i]);
    }
  }

  /** The statements and their semicolons give back the source, byte for byte. */
  lemma Lossless(p: Profile, s: bytes)
    ensures s == Join(Split(p, s)) + if Terminated(p, s) then TERMINATOR else []
    ensures Split(p, s) == [] <==> s == []
  {
    LosslessFrom(TableOf(p, s), s, 0, 0);
    EmptyOnlyAtEnd(TableOf(p, s), s, 0, 0);
    assert s[0..] == s;
  }

  // ---------------------------------------------------------------- stable

  /** The next cut at or after the lexeme end `i`, or the end of the input. */
  function NextCut(ends: LexemeTable, s: bytes, i: nat): (m: nat)
    requires |ends| == |s| && i <= |s|
    ensures i <= m <= |s| && (m < |s| ==> s[m] == SEMICOLON)
    decreases |s| - i
  {
    if i == |s| || s[i] == SEMICOLON then i else NextCut(ends, s, ends[i])
  }

  lemma {:induction false} FirstStatement(ends: LexemeTable, s: bytes, start: nat, i: nat)
    requires |ends| == |s| && start <= i <= |s|
    ensures var m := NextCut(ends, s, i);
            Statements(ends, s, start, i) ==
            if m < |s| then [s[start..m]] + Statements(ends, s, m + 1, m + 1)
            else if start == |s| then [] else [s[start..m]]
    decreases |s| - i
  {
    if i < |s| && s[i] != SEMICOLON {
      FirstStatement(ends, s, start, ends[i]);
    }
  }

  /** One statement `x`, split on its own, from any of its lexeme ends on. */
  lemma {:induction false} StatementStaysWhole(
    ends: LexemeTable, s: bytes, start: nat, i: nat, ex: LexemeTable, x: bytes)
    requires |ends| == |s| && start <= i <= |s| && |ex| == |x|
    requires var m := NextCut(ends, s, i); x == s[start..m] && SameLexemes(ends, start, ex, 0, m - start)
    ensures Statements(ex, x, 0, i - start) == if x == [] then [] else [x]
    decreases |s| - i
  {
    var m := NextCut(ends, s, i);
    if i < m {
      assert x[i - start] == s[i];
      StatementStaysWhole(ends, s, start, ends[i], ex, x);
    } else {
      assert x[0..i - start] == x;
    }
  }

  /** The statement that starts at `i`, on its own. */
  lemma StatementAlone(p: Profile, s: bytes, i: nat, x: bytes)
    requires i <= |s| && x == s[i..NextCut(TableOf(p, s), s, i)]
    ensures Split(p, x) == if x == [] then [] else [x]
  {
    var ends := TableOf(p, s);
    var m := NextCut(ends, s, i);
    TableTransfers(p, s, i, x, 0, m - i);
    StatementStaysWhole(ends, s, i, i, TableOf(p, x), x);
  }

  lemma {:induction false} StableFrom(p: Profile, s: bytes, i: nat, x: bytes)
    requires i <= |s| && x in Statements(TableOf(p, s), s, i, i) && x != []
    ensures Split(p, x) == [x]
    decreases |s| - i
  {
    var ends := TableOf(p, s);
    var m := NextCut(ends, s, i);
    FirstStatement(ends, s, i, i);
    if x == s[i..m] {
      StatementAlone(p, s, i, x);
    } else {
      StableFrom(p, s, m + 1, x);
    }
  }

  /** Splitting a statement again, in the same dialect, returns just that statement. */
  lemma Stable(p: Profile, s: bytes, x: bytes)
    requires x in Split(p, s) && x != []
    ensures Split(p, x) == [x]
  {
    StableFrom(p, s, 0, x);
  }
}
