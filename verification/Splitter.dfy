/** The statement splitter of pkg/gosqlx/splitter.go: its loop, proved against the lexemes. */
module Splitter {
  import opened Bytes
  import opened Lexemes

  // ---------------------------------------------------------------- what a split is

  /** Where a lexeme that starts at each byte ends. */
  type LexemeTable = ends: seq<nat> | forall i :: 0 <= i < |ends| ==> i < ends[i] <= |ends|

  function TableOf(p: Profile, s: bytes): (ends: LexemeTable)
    ensures |ends| == |s|
    ensures forall i :: 0 <= i < |s| ==> ends[i] == LexemeEnd(p, s, i)
  {
    seq(|s|, i requires 0 <= i < |s| => LexemeEnd(p, s, i))
  }

  /**
    The statements from `start` on, when the lexemes before `i` are already passed: a statement
    ends at each semicolon that is a lexeme by itself.
   */
  function Statements(ends: LexemeTable, s: bytes, start: nat, i: nat): seq<bytes>
    requires |ends| == |s| && start <= i <= |s|
    decreases |s| - i
  {
    if i == |s| then if start == i then [] else [s[start..i]]
    else if s[i] == SEMICOLON then [s[start..i]] + Statements(ends, s, i + 1, i + 1)
    else Statements(ends, s, start, ends[i])
  }

  function Split(p: Profile, s: bytes): seq<bytes> {
    Statements(TableOf(p, s), s, 0, 0)
  }

  // ---------------------------------------------------------------- reading a dollar tag

  /** The source's two-valued result; `ok` is false when no dollar tag starts at `i`. */
  method ReadDollarTag(src: bytes, i: nat) returns (tag: bytes, ok: bool)
    requires i < |src| && src[i] == DOLLAR
    ensures ok <==> TagLength(src, i) > 0
    ensures tag == src[i..i + TagLength(src, i)]
  {
    if i + 1 >= |src| {
      return [], false;
    }
    if src[i + 1] == DOLLAR {
      return [DOLLAR, DOLLAR], true;
    }
    var j := i + 1;
    if !IsTagStart(src[j]) {
      return [], false;
    }
    j := j + 1;
    while j < |src| && IsTagCont(src[j])
      invariant i + 2 <= j <= |src|
      invariant TagBodyEnd(src, i + 2) == TagBodyEnd(src, j)
    {
      j := j + 1;
    }
    if j >= |src| || src[j] != DOLLAR {
      return [], false;
    }
    return src[i..j + 1], true;
  }

  // ---------------------------------------------------------------- the loop

  /** The loop's context variables; `dollarTag` is empty outside dollar quotes. */
  datatype Flags = Flags(
    inSingle: bool,
    inDouble: bool,
    inBacktick: bool,
    inBracket: bool,
    inLine: bool,
    blockCommentDepth: nat,
    dollarTag: bytes,
    eStringActive: bool)

  /** The flags that stand for one context: at most one is ever set. */
  function FlagsOf(c: Context): Flags {
    Flags(c.Single?, c.Double?, c.Backtick?, c.Bracket?, c.Line?,
          if c.Block? then c.depth else 0, if c.Dollar? then c.tag else [], c.Single? && c.escapes)
  }

  /** The first `switch` of the loop body: the cursor is inside a context. */
  method InContext(src: bytes, p: Profile, i: nat, f: Flags, ghost c: Context)
    returns (f': Flags, written: bytes, ghost c': Context)
    requires i < |src| && f == FlagsOf(c) && !c.Top?
    ensures 0 < |written| <= |src| - i && written == src[i..i + |written|] && f' == FlagsOf(c')
    ensures Step(p, c, src, i) == Move(c', |written|)
  {
    var b := src[i];
    f' := f;
    if f.inLine {
      written := [b];
      if b == NEWLINE { f' := f.(inLine := false); }
    } else if f.blockCommentDepth > 0 {
      written := [b];
      if p.nestedComments && b == SLASH && i + 1 < |src| && src[i + 1] == STAR {
        written := [b, src[i + 1]];
        f' := f.(blockCommentDepth := f.blockCommentDepth + 1);
      } else if b == STAR && i + 1 < |src| && src[i + 1] == SLASH {
        written := [b, src[i + 1]];
        f' := f.(blockCommentDepth := f.blockCommentDepth - 1);
      }
    } else if f.dollarTag != [] {
      var n := |f.dollarTag|;
      if b == DOLLAR && i + n <= |src| && src[i..i + n] == f.dollarTag {
        written := src[i..i + n];
        f' := f.(dollarTag := []);
      } else {
        written := [b];
      }
    } else if f.inSingle {
      written := [b];
      if f.eStringActive && b == BACKSLASH && i + 1 < |src| {
        written := [b, src[i + 1]];
      } else if b == SINGLE_QUOTE {
        if i + 1 < |src| && src[i + 1] == SINGLE_QUOTE {
          written := [b, src[i + 1]];
        } else {
          f' := f.(inSingle := false, eStringActive := false);
        }
      }
    } else if f.inDouble {
      written := [b];
      if b == DOUBLE_QUOTE { f' := f.(inDouble := false); }
    } else if f.inBacktick {
      written := [b];
      if b == BACKTICK { f' := f.(inBacktick := false); }
    } else {
      written := [b];
      if b == RBRACKET { f' := f.(inBracket := false); }
    }
    c' := Step(p, c, src, i).next;
  }

  /** The openers of the second `switch`: the cursor is at top level, not on a semicolon. */
  method AtTop(src: bytes, p: Profile, i: nat, f: Flags)
    returns (f': Flags, written: bytes, ghost c': Context)
    requires i < |src| && f == FlagsOf(Top)
    ensures 0 < |written| <= |src| - i && written == src[i..i + |written|] && f' == FlagsOf(c')
    ensures Opener(p, src, i) == Move(c', |written|)
  {
    var b := src[i];
    f', written := f, [b];
    if b == MINUS && i + 1 < |src| && src[i + 1] == MINUS {
      f' := f.(inLine := true);
      written := [b, src[i + 1]];
    } else if b == SLASH && i + 1 < |src| && src[i + 1] == STAR {
      f' := f.(blockCommentDepth := 1);
      written := [b, src[i + 1]];
    } else if p.eStrings && (b == UPPER_E || b == LOWER_E) && i + 1 < |src| && src[i + 1] == SINGLE_QUOTE {
      f' := f.(inSingle := true, eStringActive := true);
      written := [b, src[i + 1]];
    } else if b == SINGLE_QUOTE {
      f' := f.(inSingle := true, eStringActive := false);
    } else if b == DOUBLE_QUOTE {
      f' := f.(inDouble := true);
    } else if p.backticks && b == BACKTICK {
      f' := f.(inBacktick := true);
    } else if p.brackets && b == LBRACKET {
      f' := f.(inBracket := true);
    } else if p.dollarQuoting && b == DOLLAR {
      var tag, ok := ReadDollarTag(src, i);
      if ok {
        f' := f.(dollarTag := tag);
        written := tag;
      }
    }
    c' := Opener(p, src, i).next;
  }

  /** A move inside a context keeps its end, and a flat comment never gets deeper. */
  lemma InsideMove(p: Profile, c: Context, s: bytes, i: nat, c': Context, k: nat)
    requires i < |s| && !c.Top? && Step(p, c, s, i) == Move(c', k)
    ensures EndOf(p, c', s, i + k) == EndOf(p, c, s, i)
    ensures !p.nestedComments && FlagsOf(c).blockCommentDepth <= 1 ==> FlagsOf(c').blockCommentDepth <= 1
  {
  }

  lemma OpeningMove(p: Profile, s: bytes, i: nat, m: Move)
    requires i < |s| && Opener(p, s, i) == m
    ensures EndOf(p, m.next, s, i + m.eaten) == LexemeEnd(p, s, i)
  {
  }

  lemma OpeningDepth(p: Profile, s: bytes, i: nat)
    requires i < |s|
    ensures FlagsOf(Opener(p, s, i).next).blockCommentDepth <= 1
  {
  }

  lemma Extend(s: bytes, start: nat, i: nat, cur: bytes, w: bytes)
    requires start <= i <= i + |w| <= |s| && cur == s[start..i] && w == s[i..i + |w|]
    ensures cur + w == s[start..i + |w|]
  {
  }

  lemma NoFlagIsTop(c: Context)
    ensures FlagsOf(c) == FlagsOf(Top) <==> c.Top?
  {
  }

  /** Where the loop is: the one context the flags stand for, where it ends, and where the statement began. */
  datatype Place = Place(context: Context, end: nat, start: nat)

  /** What the loop keeps: as the flags stand for one context, at most one of them is ever set. */
  ghost predicate Reading(p: Profile, src: bytes, i: nat, f: Flags, cur: bytes, at: Place) {
    && at.start <= i <= at.end <= |src|
    && f == FlagsOf(at.context)
    && (!p.nestedComments ==> f.blockCommentDepth <= 1)
    && cur == src[at.start..i]
    && EndOf(p, at.context, src, i) == at.end
  }

  /** A turn at a top-level semicolon emits a statement, one at another lexeme passes it, any other does neither. */
  ghost predicate Emits(ends: LexemeTable, s: bytes, out: seq<bytes>, at: Place, out': seq<bytes>, at': Place)
    requires |ends| == |s| && at.start <= at.end <= |s| && (at.context.Top? ==> at.end < |s|)
  {
    if !at.context.Top? then out' == out && at'.start == at.start && at'.end == at.end
    else if s[at.end] == SEMICOLON then
      out' == out + [s[at.start..at.end]] && at'.start == at.end + 1 && at'.end == at.end + 1
    else out' == out && at'.start == at.start && at'.end == ends[at.end]
  }

  /** The loop body. */
  method Turn(src: bytes, p: Profile, i: nat, f: Flags, cur: bytes, out: seq<bytes>, ghost at: Place)
    returns (i': nat, f': Flags, cur': bytes, out': seq<bytes>, ghost at': Place)
    requires i < |src| && Reading(p, src, i, f, cur, at)
    ensures i < i' && Reading(p, src, i', f', cur', at')
    ensures at.context.Top? ==> at.end == i
    ensures Emits(TableOf(p, src), src, out, at, out', at')
  {
    NoFlagIsTop(at.context);
    out' := out;
    if f != FlagsOf(Top) {
      var written: bytes;
      ghost var c': Context;
      f', written, c' := InContext(src, p, i, f, at.context);
      InsideMove(p, at.context, src, i, c', |written|);
      Extend(src, at.start, i, cur, written);
      i', cur', at' := i + |written|, cur + written, at.(context := c');
    } else if src[i] == SEMICOLON {
      i', f', cur', out' := i + 1, f, [], out + [cur];
      at' := Place(Top, i', i');
    } else {
      var written: bytes;
      ghost var c': Context;
      f', written, c' := AtTop(src, p, i, f);
      OpeningMove(p, src, i, Move(c', |written|));
      OpeningDepth(p, src, i);
      Extend(src, at.start, i, cur, written);
      i', cur', at' := i + |written|, cur + written, Place(c', LexemeEnd(p, src, i), at.start);
    }
  }

  /** What is emitted and what is to come stay together. */
  lemma EmitsKeeps(ends: LexemeTable, s: bytes, out: seq<bytes>, at: Place, out': seq<bytes>, at': Place)
    requires |ends| == |s| && at.start <= at.end <= |s| && (at.context.Top? ==> at.end < |s|)
    requires Emits(ends, s, out, at, out', at')
    ensures out' + Statements(ends, s, at'.start, at'.end) == out + Statements(ends, s, at.start, at.end)
  {
    var next := Statements(ends, s, at'.start, at'.end);
    if at.context.Top? && s[at.end] == SEMICOLON {
      assert out + ([s[at.start..at.end]] + next) == out + [s[at.start..at.end]] + next;
    }
  }

  /** What is left over at the end of the input. */
  lemma LastStatement(ends: LexemeTable, s: bytes, out: seq<bytes>, start: nat, cur: bytes)
    requires |ends| == |s| && start <= |s| && cur == s[start..|s|]
    ensures out + Statements(ends, s, start, |s|) == if |cur| > 0 then out + [cur] else out
  {
  }

  /** `splitWithProfile`: the byte loop. */
  method SplitWithProfile(src: bytes, p: Profile) returns (out: seq<bytes>)
    ensures out == Split(p, src)
  {
    out := [];
    var cur: bytes := [];
    var f := FlagsOf(Top);
    var i := 0;
    ghost var at := Place(Top, 0, 0);
    ghost var ends := TableOf(p, src);
    while i < |src|
      invariant 0 <= i && Reading(p, src, i, f, cur, at)
      invariant out + Statements(ends, src, at.start, at.end) == Split(p, src)
      decreases |src| - i
    {
      ghost var before, was := out, at;
      i, f, cur, out, at := Turn(src, p, i, f, cur, out, at);
      EmitsKeeps(ends, src, before, was, out, at);
    }
    LastStatement(ends, src, out, at.start, cur);
    if |cur| > 0 {
      out := out + [cur];
    }
  }
}
