/** The semantic-token stream of pkg/lsp/handler.go, with its 32-bit deltas. */
module SemanticTokens {

  const TWO_32 := 0x1_0000_0000

  /** Conversion to uint32. */
  function U32(n: int): (u: nat)
    ensures u < TWO_32
  {
    n % TWO_32
  }

  /** A token of the tokenizer; `kind` is its semantic type, negative for a token to skip. */
  datatype Token = Token(kind: int, line: int, column: int, endColumn: int, valueLength: nat)

  /** What the client sees of a token. */
  datatype Mark = Mark(line: nat, start: nat, length: nat, kind: nat, modifiers: nat)

  function LengthOf(t: Token): nat {
    if U32(t.endColumn - t.column) == 0 then U32(t.valueLength) else U32(t.endColumn - t.column)
  }

  /** The 0-based mark of a token. */
  function MarkOf(t: Token): Mark {
    Mark(U32(t.line - 1), U32(t.column - 1), LengthOf(t), U32(t.kind), 0)
  }

  /** The marks of the classified tokens, in their order. */
  function Marks(tokens: seq<Token>): seq<Mark> {
    if tokens == [] then []
    else (if tokens[0].kind < 0 then [] else [MarkOf(tokens[0])]) + Marks(tokens[1..])
  }

  // ---------------------------------------------------------------- encoding

  /** The five numbers of mark `m` after a mark at (line, start). */
  function Group(m: Mark, line: nat, start: nat): seq<nat> {
    var deltaLine := U32(m.line - line);
    [deltaLine, if deltaLine == 0 then U32(m.start - start) else m.start, m.length, m.kind, m.modifiers]
  }

  function Encode(ms: seq<Mark>, line: nat, start: nat): seq<nat>
    decreases |ms|
  {
    if ms == [] then [] else Group(ms[0], line, start) + Encode(ms[1..], ms[0].line, ms[0].start)
  }

  /** The numbers for the tokens from the `i`th on. */
  function EncodeFrom(tokens: seq<Token>, i: nat, line: nat, start: nat): seq<nat>
    requires i <= |tokens|
    decreases |tokens| - i
  {
    if i == |tokens| then []
    else if tokens[i].kind < 0 then EncodeFrom(tokens, i + 1, line, start)
    else
      var m := MarkOf(tokens[i]);
      Group(m, line, start) + EncodeFrom(tokens, i + 1, m.line, m.start)
  }

  lemma {:induction false} EncodeFromIsEncode(tokens: seq<Token>, i: nat, line: nat, start: nat)
    requires i <= |tokens|
    ensures EncodeFrom(tokens, i, line, start) == Encode(Marks(tokens[i..]), line, start)
    decreases |tokens| - i
  {
    if i < |tokens| {
      var t, rest := tokens[i], tokens[i + 1..];
      assert tokens[i..][1..] == rest;
      if t.kind < 0 {
        EncodeFromIsEncode(tokens, i + 1, line, start);
        assert [] + Marks(rest) == Marks(rest);
      } else {
        EncodeFromIsEncode(tokens, i + 1, MarkOf(t).line, MarkOf(t).start);
        assert ([MarkOf(t)] + Marks(rest))[1..] == Marks(rest);
      }
    }
  }

  /** Appending the next group keeps what is written and what is to come together. */
  lemma Append(data: seq<nat>, group: seq<nat>, tail: seq<nat>, goal: seq<nat>)
    requires data + (group + tail) == goal
    ensures data + group + tail == goal
  {
  }

  /** `encodeSemanticTokens` */
  method EncodeSemanticTokens(tokens: seq<Token>) returns (data: seq<nat>)
    ensures data == Encode(Marks(tokens), 0, 0)
  {
    data := [];
    var prevLine: nat, prevStartChar: nat := 0, 0;
    ghost var goal := EncodeFrom(tokens, 0, 0, 0);
    for i := 0 to |tokens|
      invariant data + EncodeFrom(tokens, i, prevLine, prevStartChar) == goal
    {
      var tok := tokens[i];
      if tok.kind < 0 {
        continue;
      }
      var line := U32(tok.line - 1);
      var startChar := U32(tok.column - 1);
      var length := U32(tok.endColumn - tok.column);
      if length == 0 {
        length := U32(tok.valueLength);
      }
      var deltaLine := U32(line - prevLine);
      var deltaStartChar := startChar;
      if deltaLine == 0 {
        deltaStartChar := U32(startChar - prevStartChar);
      }
      var group: seq<nat> := [deltaLine, deltaStartChar, length, U32(tok.kind), 0];
      Append(data, group, EncodeFrom(tokens, i + 1, line, startChar), goal);
      data := data + group;
      prevLine := line;
      prevStartChar := startChar;
    }
    EncodeFromIsEncode(tokens, 0, 0, 0);
    assert tokens[0..] == tokens;
  }

  // ---------------------------------------------------------------- decoding

  /** The client's running sums, modulo 2^32. */
  function Decode(data: seq<nat>, line: nat, start: nat): seq<Mark>
    decreases |data|
  {
    if |data| < 5 then []
    else
      var line' := U32(line + data[0]);
      var start' := if data[0] == 0 then U32(start + data[1]) else data[1];
      [Mark(line', start', data[2], data[3], data[4])] + Decode(data[5..], line', start')
  }

  /** The same sums without any modulus. */
  function DecodeExactly(data: seq<nat>, line: nat, start: nat): seq<Mark>
    decreases |data|
  {
    if |data| < 5 then []
    else
      var line' := line + data[0];
      var start' := if data[0] == 0 then start + data[1] else data[1];
      [Mark(line', start', data[2], data[3], data[4])] + DecodeExactly(data[5..], line', start')
  }

  predicate In32(ms: seq<Mark>) {
    forall k :: 0 <= k < |ms| ==> ms[k].line < TWO_32 && ms[k].start < TWO_32
  }

  lemma {:induction false} MarksIn32(tokens: seq<Token>)
    ensures In32(Marks(tokens))
    decreases |tokens|
  {
    if tokens != [] { MarksIn32(tokens[1..]); }
  }

  /** Adding a difference gives back what it leads to, modulo 2^32. */
  lemma DeltaBack(a: nat, b: nat)
    requires a < TWO_32 && b < TWO_32
    ensures U32(a + U32(b - a)) == b && (U32(b - a) == 0 <==> a == b)
  {
    assert U32(b - a) == if b < a then b - a + TWO_32 else b - a;
  }

  lemma DecodeCons(data: seq<nat>, group: seq<nat>, tail: seq<nat>, line: nat, start: nat)
    requires |group| == 5 && data == group + tail
    ensures var line' := U32(line + group[0]);
            var start' := if group[0] == 0 then U32(start + group[1]) else group[1];
            Decode(data, line, start) ==
            [Mark(line', start', group[2], group[3], group[4])] + Decode(tail, line', start')
  {
    assert data[5..] == tail;
  }

  /** Decoding one group. */
  lemma DecodeGroup(m: Mark, line: nat, start: nat, tail: seq<nat>)
    requires m.line < TWO_32 && m.start < TWO_32 && line < TWO_32 && start < TWO_32
    ensures Decode(Group(m, line, start) + tail, line, start) == [m] + Decode(tail, m.line, m.start)
  {
    DeltaBack(line, m.line);
    DeltaBack(start, m.start);
    DecodeCons(Group(m, line, start) + tail, Group(m, line, start), tail, line, start);
  }

  lemma {:induction false} DecodeEncode(ms: seq<Mark>, line: nat, start: nat)
    requires In32(ms) && line < TWO_32 && start < TWO_32
    ensures Decode(Encode(ms, line, start), line, start) == ms
    decreases |ms|
  {
    if ms != [] {
      var m, rest := ms[0], ms[1..];
      DecodeEncode(rest, m.line, m.start);
      DecodeGroup(m, line, start, Encode(rest, m.line, m.start));
      assert ms == [m] + rest;
    }
  }

  /** In any order of the tokens, decoding modulo 2^32 gives back every classified token. */
  lemma RoundTrip(tokens: seq<Token>)
    ensures Decode(Encode(Marks(tokens), 0, 0), 0, 0) == Marks(tokens)
  {
    MarksIn32(tokens);
    DecodeEncode(Marks(tokens), 0, 0);
  }

  /** The marks come in the order of their positions, from (line, start) on. */
  predicate Sorted(ms: seq<Mark>, line: nat, start: nat)
    decreases |ms|
  {
    || ms == []
    || (&& (line < ms[0].line || (line == ms[0].line && start <= ms[0].start))
        && Sorted(ms[1..], ms[0].line, ms[0].start))
  }

  lemma {:induction false} SortedNeverWraps(ms: seq<Mark>, line: nat, start: nat)
    requires In32(ms) && Sorted(ms, line, start)
    ensures DecodeExactly(Encode(ms, line, start), line, start) == ms
    decreases |ms|
  {
    if ms != [] {
      var m, rest := ms[0], ms[1..];
      var tail := Encode(rest, m.line, m.start);
      var data := Group(m, line, start) + tail;
      assert data[5..] == tail;
      SortedNeverWraps(rest, m.line, m.start);
      assert ms == [m] + rest;
    }
  }

  /** Classified tokens have 1-based positions that fit 32 bits. */
  predicate OneBased(tokens: seq<Token>) {
    forall k :: 0 <= k < |tokens| && tokens[k].kind >= 0 ==>
      1 <= tokens[k].line <= TWO_32 && 1 <= tokens[k].column <= TWO_32
  }

  /** For 1-based tokens in the order of their positions no delta wraps: plain sums give the positions back. */
  lemma SortedRoundTrip(tokens: seq<Token>)
    requires OneBased(tokens) && Sorted(Marks(tokens), 0, 0)
    ensures DecodeExactly(Encode(Marks(tokens), 0, 0), 0, 0) == Marks(tokens)
    ensures forall k :: 0 <= k < |tokens| && tokens[k].kind >= 0 ==>
      MarkOf(tokens[k]).line == tokens[k].line - 1 && MarkOf(tokens[k]).start == tokens[k].column - 1
  {
    MarksIn32(tokens);
    SortedNeverWraps(Marks(tokens), 0, 0);
    forall k | 0 <= k < |tokens| && tokens[k].kind >= 0
      ensures MarkOf(tokens[k]).line == tokens[k].line - 1 && MarkOf(tokens[k]).start == tokens[k].column - 1
    {
      SmallStays(tokens[k].line - 1);
      SmallStays(tokens[k].column - 1);
    }
  }

  lemma SmallStays(n: int)
    requires 0 <= n < TWO_32
    ensures U32(n) == n
  {
  }

  // ---------------------------------------------------------------- token by token

  /** The number of classified tokens before token `i`. */
  function CountBefore(tokens: seq<Token>, i: nat): nat
    requires i <= |tokens|
  {
    if i == 0 then 0 else CountBefore(tokens, i - 1) + if tokens[i - 1].kind >= 0 then 1 else 0
  }

  /** The last of them, -1 when there is none. */
  function Previous(tokens: seq<Token>, i: nat): (j: int)
    requires i <= |tokens|
    ensures -1 <= j < i && (j >= 0 ==> tokens[j].kind >= 0) && forall k :: j < k < i ==> tokens[k].kind < 0
  {
    if i == 0 then -1 else if tokens[i - 1].kind >= 0 then i - 1 else Previous(tokens, i - 1)
  }

  /** Its line and column; the stream starts at the first column of the first line. */
  function LineBefore(tokens: seq<Token>, i: nat): int
    requires i <= |tokens|
  {
    if Previous(tokens, i) < 0 then 1 else tokens[Previous(tokens, i)].line
  }

  function ColumnBefore(tokens: seq<Token>, i: nat): int
    requires i <= |tokens|
  {
    if Previous(tokens, i) < 0 then 1 else tokens[Previous(tokens, i)].column
  }

  /** The numbers from token `i` on. */
  function TailFrom(tokens: seq<Token>, i: nat): seq<nat>
    requires i <= |tokens|
  {
    EncodeFrom(tokens, i, U32(LineBefore(tokens, i) - 1), U32(ColumnBefore(tokens, i) - 1))
  }

  lemma TailCons(tokens: seq<Token>, i: nat)
    requires i < |tokens|
    ensures TailFrom(tokens, i) ==
            (if tokens[i].kind < 0 then []
             else Group(MarkOf(tokens[i]), U32(LineBefore(tokens, i) - 1), U32(ColumnBefore(tokens, i) - 1)))
            + TailFrom(tokens, i + 1)
  {
    if tokens[i].kind < 0 {
      assert [] + TailFrom(tokens, i + 1) == TailFrom(tokens, i + 1);
    }
  }

  lemma Cut(data: seq<nat>, n: nat, group: seq<nat>, tail: seq<nat>)
    requires n <= |data| && data[n..] == group + tail
    ensures n + |group| <= |data| && data[n + |group|..] == tail && data[n..n + |group|] == group
  {
    assert data[n + |group|..] == data[n..][|group|..];
    assert data[n..n + |group|] == data[n..][..|group|];
  }

  /** Five numbers for every classified token before token `i`, and then those from it on. */
  lemma {:induction false} TailAt(tokens: seq<Token>, i: nat, data: seq<nat>)
    requires i <= |tokens| && data == TailFrom(tokens, 0)
    ensures 5 * CountBefore(tokens, i) <= |data| && data[5 * CountBefore(tokens, i)..] == TailFrom(tokens, i)
    decreases i
  {
    if i > 0 {
      TailAt(tokens, i - 1, data);
      TailCons(tokens, i - 1);
      var line, column := LineBefore(tokens, i - 1), ColumnBefore(tokens, i - 1);
      var group :=
        if tokens[i - 1].kind < 0 then [] else Group(MarkOf(tokens[i - 1]), U32(line - 1), U32(column - 1));
      Cut(data, 5 * CountBefore(tokens, i - 1), group, TailFrom(tokens, i));
    }
  }

  lemma EncodeIsTail(tokens: seq<Token>)
    ensures Encode(Marks(tokens), 0, 0) == TailFrom(tokens, 0)
  {
    EncodeFromIsEncode(tokens, 0, 0, 0);
    assert tokens[0..] == tokens;
  }

  /** Classified tokens fit 32 bits: 1-based positions, the kind, and the length of the text. */
  predicate Fits32(tokens: seq<Token>) {
    OneBased(tokens) && forall k :: 0 <= k < |tokens| ==> tokens[k].kind < TWO_32 && tokens[k].valueLength < TWO_32
  }

  /** A difference of 32-bit numbers. */
  lemma DeltaIs(a: int, b: int)
    requires 1 <= a <= TWO_32 && 1 <= b <= TWO_32
    ensures U32(U32(b - 1) - U32(a - 1)) == (b - a) % 0x1_0000_0000
    ensures (b - a) % 0x1_0000_0000 == 0 <==> a == b
    ensures U32(b - 1) == b - 1
  {
    SmallStays(a - 1);
    SmallStays(b - 1);
    DeltaBack(a - 1, b - 1);
  }

  lemma GroupIs(t: Token, line: int, column: int)
    requires 1 <= t.line <= TWO_32 && 1 <= t.column <= TWO_32 && 0 <= t.kind < TWO_32 && t.valueLength < TWO_32
    requires 1 <= line <= TWO_32 && 1 <= column <= TWO_32
    ensures Group(MarkOf(t), U32(line - 1), U32(column - 1)) ==
            [(t.line - line) % 0x1_0000_0000,
             if t.line == line then (t.column - column) % 0x1_0000_0000 else t.column - 1,
             if (t.endColumn - t.column) % 0x1_0000_0000 == 0 then t.valueLength
             else (t.endColumn - t.column) % 0x1_0000_0000,
             t.kind,
             0]
  {
    DeltaIs(line, t.line);
    DeltaIs(column, t.column);
    SmallStays(t.kind);
    SmallStays(t.valueLength);
  }

  lemma FitsBefore(tokens: seq<Token>, i: nat)
    requires OneBased(tokens) && i <= |tokens|
    ensures 1 <= LineBefore(tokens, i) <= TWO_32 && 1 <= ColumnBefore(tokens, i) <= TWO_32
  {
  }

  /**
    The five numbers of a classified token: the lines since the classified token before it, the
    columns since it on the same line or the column on another one, the length of the token on its
    line or, when that is zero, of its text, its kind, and no modifiers.
   */
  lemma {:induction false} EncodedToken(tokens: seq<Token>, i: nat, t: Token, n: nat, data: seq<nat>)
    requires data == Encode(Marks(tokens), 0, 0) && Fits32(tokens)
    requires i < |tokens| && t == tokens[i] && t.kind >= 0 && n == 5 * CountBefore(tokens, i)
    ensures n + 5 <= |data|
    ensures data[n] == (t.line - LineBefore(tokens, i)) % 0x1_0000_0000
    ensures data[n + 1] == if t.line == LineBefore(tokens, i)
                           then (t.column - ColumnBefore(tokens, i)) % 0x1_0000_0000 else t.column - 1
    ensures data[n + 2] == if (t.endColumn - t.column) % 0x1_0000_0000 == 0 then t.valueLength
                           else (t.endColumn - t.column) % 0x1_0000_0000
    ensures data[n + 3] == t.kind
    ensures data[n + 4] == 0
  {
    var line, column := LineBefore(tokens, i), ColumnBefore(tokens, i);
    var group := Group(MarkOf(t), U32(line - 1), U32(column - 1));
    assert data[n..] == group + TailFrom(tokens, i + 1) by {
      EncodeIsTail(tokens);
      TailAt(tokens, i, data);
      TailCons(tokens, i);
    }
    Cut(data, n, group, TailFrom(tokens, i + 1));
    assert data[n] == data[n..n + 5][0] && data[n + 1] == data[n..n + 5][1] && data[n + 2] == data[n..n + 5][2];
    assert data[n + 3] == data[n..n + 5][3] && data[n + 4] == data[n..n + 5][4];
    FitsBefore(tokens, i);
    GroupIs(t, line, column);
  }

  /** And the client reads them as the token. */
  lemma {:induction false} DecodedToken(tokens: seq<Token>, i: nat, t: Token, marks: seq<Mark>)
    requires marks == Decode(Encode(Marks(tokens), 0, 0), 0, 0) && Fits32(tokens)
    requires i < |tokens| && t == tokens[i] && t.kind >= 0
    ensures |marks| == CountBefore(tokens, |tokens|) && CountBefore(tokens, i) < |marks|
    ensures marks[CountBefore(tokens, i)].line == t.line - 1
    ensures marks[CountBefore(tokens, i)].start == t.column - 1
    ensures marks[CountBefore(tokens, i)].length ==
            if (t.endColumn - t.column) % 0x1_0000_0000 == 0 then t.valueLength
            else (t.endColumn - t.column) % 0x1_0000_0000
    ensures marks[CountBefore(tokens, i)].kind == t.kind
    ensures marks[CountBefore(tokens, i)].modifiers == 0
  {
    RoundTrip(tokens);
    MarksAre(tokens, |tokens|);
    MarkAt(tokens, i, |tokens|);
    GroupIs(t, 1, 1);
    SmallStays(t.line - 1);
    SmallStays(t.column - 1);
  }

  /** The mark of one token, when it has one. */
  function OwnMark(t: Token): seq<Mark> {
    if t.kind < 0 then [] else [MarkOf(t)]
  }

  lemma MarksCons(t: Token, rest: seq<Token>)
    ensures Marks([t] + rest) == OwnMark(t) + Marks(rest)
  {
    assert ([t] + rest)[1..] == rest;
  }

  lemma Reassociate(tokens: seq<Token>, t: Token, xs: seq<Mark>, ys: seq<Mark>, zs: seq<Mark>)
    requires tokens != []
    ensures tokens + [t] == [tokens[0]] + (tokens[1..] + [t]) && tokens == [tokens[0]] + tokens[1..]
    ensures xs + (ys + zs) == xs + ys + zs
  {
  }

  lemma {:induction false} MarksSnoc(tokens: seq<Token>, t: Token)
    ensures Marks(tokens + [t]) == Marks(tokens) + OwnMark(t)
    decreases |tokens|
  {
    if tokens == [] {
      assert tokens + [t] == [t] + [] && Marks([]) == [];
      MarksCons(t, []);
    } else {
      Reassociate(tokens, t, OwnMark(tokens[0]), Marks(tokens[1..]), OwnMark(t));
      MarksSnoc(tokens[1..], t);
      MarksCons(tokens[0], tokens[1..] + [t]);
      MarksCons(tokens[0], tokens[1..]);
    }
  }

  lemma {:induction false} MarksAre(tokens: seq<Token>, n: nat)
    requires n <= |tokens|
    ensures |Marks(tokens[..n])| == CountBefore(tokens, n) && tokens[..|tokens|] == tokens
    decreases n
  {
    if n > 0 {
      MarksAre(tokens, n - 1);
      MarksSnoc(tokens[..n - 1], tokens[n - 1]);
      assert tokens[..n] == tokens[..n - 1] + [tokens[n - 1]];
    }
  }

  lemma {:induction false} MarkAt(tokens: seq<Token>, i: nat, n: nat)
    requires i < n <= |tokens| && tokens[i].kind >= 0
    ensures CountBefore(tokens, i) < |Marks(tokens[..n])|
    ensures Marks(tokens[..n])[CountBefore(tokens, i)] == MarkOf(tokens[i])
    decreases n
  {
    MarksSnoc(tokens[..n - 1], tokens[n - 1]);
    assert tokens[..n] == tokens[..n - 1] + [tokens[n - 1]];
    if i < n - 1 {
      MarkAt(tokens, i, n - 1);
    } else {
      MarksAre(tokens, i);
    }
  }

  /** There are five for each of them, and no others. */
  lemma EncodedLength(tokens: seq<Token>)
    ensures |Encode(Marks(tokens), 0, 0)| == 5 * CountBefore(tokens, |tokens|)
  {
    EncodeIsTail(tokens);
    TailAt(tokens, |tokens|, Encode(Marks(tokens), 0, 0));
  }
}
