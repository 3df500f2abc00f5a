/**
  The message framing of pkg/lsp/server.go: header and content as `sendMessage` writes them and
  `readMessage` reads them ("Base Protocol" of the Language Server Protocol, version 3.17).
 */
module Framing {
  import opened Bytes
  import opened Options

  const MAX_CONTENT_LENGTH := 10 * 1024 * 1024

  /** "Content-Length:" */
  const CONTENT_LENGTH: bytes := [67, 111, 110, 116, 101, 110, 116, 45, 76, 101, 110, 103, 116, 104, COLON]

  // ---------------------------------------------------------------- decimal numbers

  /** `%d` */
  function Decimal(n: nat): (d: bytes)
    ensures d != [] && forall k :: 0 <= k < |d| ==> IsDigit(d[k])
  {
    (if n < 10 then [] else Decimal(n / 10)) + [ZERO + n % 10]
  }

  function Value(d: bytes): int {
    if d == [] then 0 else 10 * Value(d[..|d| - 1]) + (d[|d| - 1] - ZERO) as int
  }

  predicate AllDigits(d: bytes) {
    d != [] && forall k :: 0 <= k < |d| ==> IsDigit(d[k])
  }

  /** `strconv.Atoi`: an optional sign and digits, within 64 bits. */
  function Atoi(s: bytes): Option<int> {
    var negative := s != [] && s[0] == MINUS;
    var d := if s != [] && (s[0] == MINUS || s[0] == PLUS) then s[1..] else s;
    if !AllDigits(d) then None
    else
      var n := if negative then -Value(d) else Value(d);
      if -0x8000_0000_0000_0000 <= n < 0x8000_0000_0000_0000 then Some(n) else None
  }

  /** The decimal digits: the last one is the remainder, and no number but zero starts with a zero. */
  lemma {:induction false} DecimalDigits(n: nat)
    ensures n < 10 ==> Decimal(n) == [48 + n]
    ensures n >= 10 ==> Decimal(n) == Decimal(n / 10) + [48 + n % 10]
    ensures n > 0 ==> Decimal(n)[0] != 48
    decreases n
  {
    if n >= 10 {
      DecimalDigits(n / 10);
    } else {
      assert [] + [ZERO + n] == [48 + n];
    }
  }

  lemma {:induction false} ValueOfDecimal(n: nat)
    ensures Value(Decimal(n)) == n
  {
    var d := Decimal(n);
    if n >= 10 {
      ValueOfDecimal(n / 10);
      assert d[..|d| - 1] == Decimal(n / 10);
    } else {
      assert d[..0] == [];
    }
  }

  lemma AtoiOfDecimal(n: nat)
    requires n < 0x8000_0000_0000_0000
    ensures Atoi(Decimal(n)) == Some(n)
  {
    ValueOfDecimal(n);
    assert IsDigit(Decimal(n)[0]);
  }

  /** A sign is read, and minus negates. */
  lemma AtoiOfSigned(sign: byte, n: nat)
    requires n < 0x8000_0000_0000_0000 && (sign == 43 || sign == 45)
    ensures Atoi([sign] + Decimal(n)).Some?
    ensures Atoi([sign] + Decimal(n)).value == if sign == 45 then 0 - n as int else n as int
  {
    var s := [sign] + Decimal(n);
    ValueOfDecimal(n);
    assert s[1..] == Decimal(n) && s[0] == sign;
  }

  // ---------------------------------------------------------------- trimming

  predicate IsSpace(b: byte) {
    b == SPACE || TAB <= b <= RETURN
  }

  function TrimLeft(s: bytes): bytes {
    if s != [] && IsSpace(s[0]) then TrimLeft(s[1..]) else s
  }

  function TrimRight(s: bytes): bytes {
    if s != [] && IsSpace(s[|s| - 1]) then TrimRight(s[..|s| - 1]) else s
  }

  /** `strings.TrimSpace`, on ASCII space. */
  function TrimSpace(s: bytes): bytes {
    TrimRight(TrimLeft(s))
  }

  /** Space, tab, newline, vertical tab, form feed or carriage return, and nothing else. */
  predicate AllBlank(s: bytes) {
    forall k :: 0 <= k < |s| ==> s[k] in {32, 9, 10, 11, 12, 13}
  }

  lemma {:induction false} TrimLeftParts(s: bytes) returns (a: bytes)
    ensures s == a + TrimLeft(s) && AllBlank(a)
    ensures TrimLeft(s) != [] ==> TrimLeft(s)[0] !in {32, 9, 10, 11, 12, 13}
    decreases |s|
  {
    a := [];
    if s != [] && IsSpace(s[0]) {
      var b := TrimLeftParts(s[1..]);
      a := [s[0]] + b;
    }
  }

  lemma {:induction false} TrimRightParts(s: bytes) returns (a: bytes)
    ensures s == TrimRight(s) + a && AllBlank(a)
    ensures TrimRight(s) != [] ==> TrimRight(s)[|TrimRight(s)| - 1] !in {32, 9, 10, 11, 12, 13}
    decreases |s|
  {
    a := [];
    if s != [] && IsSpace(s[|s| - 1]) {
      var b := TrimRightParts(s[..|s| - 1]);
      a := b + [s[|s| - 1]];
    }
  }

  /** Trimming takes blanks off both ends, and all of them. */
  lemma TrimParts(s: bytes) returns (a: bytes, b: bytes)
    ensures s == a + TrimSpace(s) + b && AllBlank(a) && AllBlank(b)
    ensures var t := TrimSpace(s);
            t != [] ==> t[0] !in {32, 9, 10, 11, 12, 13} && t[|t| - 1] !in {32, 9, 10, 11, 12, 13}
  {
    a := TrimLeftParts(s);
    b := TrimRightParts(TrimLeft(s));
    assert TrimSpace(s) != [] ==> TrimSpace(s)[0] == (TrimSpace(s) + b)[0];
  }

  // ---------------------------------------------------------------- reading

  /** The index of the first newline at or after `i`, the length when there is none. */
  function NewlineAt(s: bytes, i: nat): (k: nat)
    requires i <= |s|
    ensures i <= k <= |s| && (k < |s| ==> s[k] == NEWLINE)
    ensures forall m :: i <= m < k ==> s[m] != NEWLINE
    decreases |s| - i
  {
    if i == |s| || s[i] == NEWLINE then i else NewlineAt(s, i + 1)
  }

  datatype Headers = NoLine | BadLength(rest: bytes) | Done(length: int, rest: bytes)

  /** The header lines, up to the first blank one; the last Content-Length counts. */
  function ReadHeaders(s: bytes, length: int): (h: Headers)
    ensures !h.NoLine? ==> |h.rest| < |s|
    decreases |s|
  {
    var k := NewlineAt(s, 0);
    if k == |s| then NoLine
    else
      var line := TrimSpace(s[..k + 1]);
      var rest := s[k + 1..];
      if line == [] then Done(length, rest)
      else if CONTENT_LENGTH <= line then
        var n := Atoi(TrimSpace(line[|CONTENT_LENGTH|..]));
        if n.None? then BadLength(rest) else ReadHeaders(rest, n.value)
      else ReadHeaders(rest, length)
  }

  /** What one read gives: a message, the end of the input, an error, or a panic on a negative length. */
  datatype Outcome = Message(content: bytes) | EndOfInput | Failed | Panics

  function ReadFrom(s: bytes): (r: (Outcome, bytes))
    ensures r.0.Message? || r.0.Failed? ==> |r.1| < |s|
  {
    match ReadHeaders(s, 0)
    case NoLine => (EndOfInput, [])
    case BadLength(rest) => (Failed, rest)
    case Done(n, rest) =>
      if n == 0 || n > MAX_CONTENT_LENGTH then (Failed, rest)
      else if n < 0 then (Panics, rest)
      else if |rest| < n then (Failed, [])
      else (Message(rest[..n]), rest[n..])
  }

  /** What `n` reads in a row give, and the bytes left after them. */
  function ReadMany(s: bytes, n: nat): (seq<Outcome>, bytes)
    decreases n
  {
    if n == 0 then ([], s)
    else
      var (outcome, rest) := ReadFrom(s);
      var (outcomes, left) := ReadMany(rest, n - 1);
      ([outcome] + outcomes, left)
  }

  /**
    The messages that `Run` has handed on in the end, and the bytes left, when it has handed on
    `handled` and `s` is to come.  Errors are skipped; the end of the input stops it, and so does a
    message after which the shutdown flag is set: `stops` tells whether it is, for all the messages
    so far.
   */
  function Serve(s: bytes, handled: seq<bytes>, stops: seq<bytes> -> bool): (seq<bytes>, bytes)
    decreases |s|
  {
    var (outcome, rest) := ReadFrom(s);
    match outcome
    case Message(content) =>
      if stops(handled + [content]) then (handled + [content], rest) else Serve(rest, handled + [content], stops)
    case Failed => Serve(rest, handled, stops)
    case EndOfInput => (handled, [])
    case Panics => (handled, rest)
  }

  // ---------------------------------------------------------------- writing

  const LINE_BREAK: bytes := [RETURN, NEWLINE]

  function HeaderLine(n: nat): bytes {
    CONTENT_LENGTH + [SPACE] + Decimal(n) + LINE_BREAK
  }

  function Frame(content: bytes): bytes {
    HeaderLine(|content|) + LINE_BREAK + content
  }

  function Frames(contents: seq<bytes>): bytes {
    if contents == [] then [] else Frame(contents[0]) + Frames(contents[1..])
  }

  /** The bytes that are sent: "Content-Length:", a space, the length, two line breaks and the content. */
  lemma FrameBytes(content: bytes, key: bytes, lineBreak: bytes)
    requires key == [67, 111, 110, 116, 101, 110, 116, 45, 76, 101, 110, 103, 116, 104, 58] && lineBreak == [13, 10]
    ensures Frame(content) == key + [32] + Decimal(|content|) + lineBreak + lineBreak + content
  {
  }

  class Writer {
    var written: bytes

    constructor ()
      ensures written == []
    {
      written := [];
    }

    /** `sendMessage`, once the message is marshalled. */
    method SendMessage(content: bytes)
      modifies this
      ensures written == old(written) + Frame(content)
    {
      var header := CONTENT_LENGTH + [SPACE] + Decimal(|content|) + [RETURN, NEWLINE, RETURN, NEWLINE];
      assert header == HeaderLine(|content|) + LINE_BREAK;
      written := written + header;
      written := written + content;
    }
  }

  // ---------------------------------------------------------------- the round trip

  lemma {:induction false} TrimRightLine(w: bytes)
    requires w != [] && !IsSpace(w[|w| - 1])
    ensures TrimRight(w + LINE_BREAK) == w
  {
    var s := w + LINE_BREAK;
    assert s[..|s| - 1] == w + [RETURN];
    assert (w + [RETURN])[..|w|] == w;
    assert TrimRight(w + [RETURN]) == TrimRight(w) == w;
  }

  lemma TrimLine(w: bytes)
    requires w != [] && !IsSpace(w[0]) && !IsSpace(w[|w| - 1])
    ensures TrimSpace(w + LINE_BREAK) == w
  {
    TrimRightLine(w);
    assert (w + LINE_BREAK)[0] == w[0];
  }

  lemma TrimBlank()
    ensures TrimSpace(LINE_BREAK) == []
  {
    assert LINE_BREAK[1..] == [NEWLINE] && [NEWLINE][1..] == [];
    assert TrimLeft(LINE_BREAK) == TrimLeft([NEWLINE]) == [];
  }

  lemma TrimNumber(d: bytes)
    requires AllDigits(d)
    ensures TrimSpace([SPACE] + d) == d
  {
    assert ([SPACE] + d)[1..] == d;
    assert IsDigit(d[0]) && IsDigit(d[|d| - 1]);
    assert TrimLeft([SPACE] + d) == TrimLeft(d) == d;
  }

  /** A line of its own is read as such. */
  lemma FirstLine(line: bytes, rest: bytes)
    requires line != [] && line[|line| - 1] == NEWLINE && forall k :: 0 <= k < |line| - 1 ==> line[k] != NEWLINE
    ensures var s := line + rest; var k := NewlineAt(s, 0); k < |s| && s[..k + 1] == line && s[k + 1..] == rest
  {
    var s := line + rest;
    assert forall k :: 0 <= k < |line| ==> s[k] == line[k];
    assert NewlineAt(s, 0) == |line| - 1;
  }

  /** A line that gives a length. */
  lemma ReadLength(line: bytes, n: int, rest: bytes, length: int)
    requires line != [] && line[|line| - 1] == NEWLINE && forall k :: 0 <= k < |line| - 1 ==> line[k] != NEWLINE
    requires var w := TrimSpace(line);
             CONTENT_LENGTH <= w && Atoi(TrimSpace(w[|CONTENT_LENGTH|..])) == Some(n)
    ensures ReadHeaders(line + rest, length) == ReadHeaders(rest, n)
  {
    FirstLine(line, rest);
  }

  lemma HeaderLineParts(n: nat, w: bytes)
    requires w == CONTENT_LENGTH + [SPACE] + Decimal(n)
    ensures HeaderLine(n) == w + LINE_BREAK && CONTENT_LENGTH <= w && w[|CONTENT_LENGTH|..] == [SPACE] + Decimal(n)
    ensures w[0] == 67 && IsDigit(w[|w| - 1]) && forall k :: 0 <= k < |w| ==> w[k] != NEWLINE
  {
    var d := Decimal(n);
    assert forall k :: |CONTENT_LENGTH| < k < |w| ==> w[k] == d[k - |CONTENT_LENGTH| - 1];
    assert w[..|CONTENT_LENGTH|] == CONTENT_LENGTH;
  }

  lemma ReadHeaderLine(n: nat, rest: bytes, length: int)
    requires n < 0x8000_0000_0000_0000
    ensures ReadHeaders(HeaderLine(n) + rest, length) == ReadHeaders(rest, n)
  {
    var w := CONTENT_LENGTH + [SPACE] + Decimal(n);
    HeaderLineParts(n, w);
    TrimLine(w);
    TrimNumber(Decimal(n));
    AtoiOfDecimal(n);
    ReadLength(w + LINE_BREAK, n, rest, length);
  }

  lemma ReadBlankLine(rest: bytes, length: int)
    ensures ReadHeaders(LINE_BREAK + rest, length) == Done(length, rest)
  {
    FirstLine(LINE_BREAK, rest);
    TrimBlank();
  }

  /** Any other line with something on it is skipped. */
  lemma OtherHeaderIsSkipped(line: bytes, rest: bytes, length: int)
    requires NEWLINE !in line && TrimSpace(line + [NEWLINE]) != []
    requires !(CONTENT_LENGTH <= TrimSpace(line + [NEWLINE]))
    ensures ReadHeaders(line + [NEWLINE] + rest, length) == ReadHeaders(rest, length)
  {
    FirstLine(line + [NEWLINE], rest);
  }

  /**
    A frame is read back as its content, with nothing after it touched, exactly when the content is
    neither empty nor too long; otherwise the read fails.
   */
  lemma ReadFrame(content: bytes, rest: bytes)
    requires |content| < 0x8000_0000_0000_0000
    ensures 0 < |content| <= 10485760 ==> ReadFrom(Frame(content) + rest) == (Message(content), rest)
    ensures !(0 < |content| <= 10485760) ==> ReadFrom(Frame(content) + rest) == (Failed, content + rest)
  {
    var tail := LINE_BREAK + (content + rest);
    assert Frame(content) + rest == HeaderLine(|content|) + tail;
    ReadHeaderLine(|content|, tail, 0);
    ReadBlankLine(content + rest, |content|);
    assert (content + rest)[..|content|] == content && (content + rest)[|content|..] == rest;
  }

  predicate Sendable(contents: seq<bytes>) {
    forall k :: 0 <= k < |contents| ==> 0 < |contents[k]| <= MAX_CONTENT_LENGTH
  }

  function Messages(contents: seq<bytes>): seq<Outcome> {
    seq(|contents|, k requires 0 <= k < |contents| => Message(contents[k]))
  }

  lemma FrameFirst(all: bytes, content: bytes, more: bytes, rest: bytes)
    requires all == Frame(content) + more
    ensures all + rest == Frame(content) + (more + rest)
  {
  }

  /** `all` is a frame and more. */
  lemma ReadFirst(all: bytes, content: bytes, more: bytes, rest: bytes)
    requires all == Frame(content) + more && 0 < |content| <= MAX_CONTENT_LENGTH
    ensures ReadFrom(all + rest) == (Message(content), more + rest)
  {
    FrameFirst(all, content, more, rest);
    ReadFrame(content, more + rest);
  }

  lemma ReadManyFirst(
    all: bytes, content: bytes, more: bytes, rest: bytes, n: nat, outcomes: seq<Outcome>, left: bytes)
    requires all == Frame(content) + more && 0 < |content| <= MAX_CONTENT_LENGTH
    requires n > 0 && ReadMany(more + rest, n - 1) == (outcomes, left)
    ensures ReadMany(all + rest, n) == ([Message(content)] + outcomes, left)
  {
    ReadFirst(all, content, more, rest);
  }

  lemma MessagesCons(contents: seq<bytes>)
    requires contents != []
    ensures Messages(contents) == [Message(contents[0])] + Messages(contents[1..])
  {
  }

  /** Whatever is sent is read back: as many reads give exactly the contents and consume exactly their frames. */
  lemma {:induction false} FramingRoundTrip(contents: seq<bytes>, rest: bytes)
    requires Sendable(contents)
    ensures ReadMany(Frames(contents) + rest, |contents|) == (Messages(contents), rest)
    decreases |contents|
  {
    if contents == [] {
      assert Frames(contents) + rest == rest && Messages(contents) == [];
    } else {
      var tail := contents[1..];
      FramingRoundTrip(tail, rest);
      ReadManyFirst(Frames(contents), contents[0], Frames(tail), rest, |contents|, Messages(tail), rest);
      MessagesCons(contents);
    }
  }

  /** The flag is set after none of the contents that follow what is handled. */
  ghost predicate GoesOn(contents: seq<bytes>, handled: seq<bytes>, stops: seq<bytes> -> bool) {
    forall k :: 0 < k <= |contents| ==> !stops(handled + contents[..k])
  }

  lemma GoesOnTail(contents: seq<bytes>, handled: seq<bytes>, stops: seq<bytes> -> bool)
    requires contents != [] && GoesOn(contents, handled, stops)
    ensures !stops(handled + [contents[0]]) && GoesOn(contents[1..], handled + [contents[0]], stops)
    ensures handled + [contents[0]] + contents[1..] == handled + contents
  {
    assert contents[..1] == [contents[0]];
    forall k | 0 < k <= |contents| - 1
      ensures !stops(handled + [contents[0]] + contents[1..][..k])
    {
      assert handled + [contents[0]] + contents[1..][..k] == handled + contents[..k + 1];
    }
  }

  lemma ServeMessage(s: bytes, content: bytes, rest: bytes, handled: seq<bytes>, stops: seq<bytes> -> bool)
    requires ReadFrom(s) == (Message(content), rest)
    ensures Serve(s, handled, stops) ==
            if stops(handled + [content]) then (handled + [content], rest) else Serve(rest, handled + [content], stops)
  {
  }

  /** Sent contents after which the flag is not set are all handed on, and then the rest is served. */
  lemma {:induction false} AllAreServed(
    contents: seq<bytes>, rest: bytes, handled: seq<bytes>, stops: seq<bytes> -> bool)
    requires Sendable(contents) && GoesOn(contents, handled, stops)
    ensures Serve(Frames(contents) + rest, handled, stops) == Serve(rest, handled + contents, stops)
    decreases |contents|
  {
    if contents == [] {
      assert Frames(contents) + rest == rest && handled + contents == handled;
    } else {
      var c, tail := contents[0], contents[1..];
      ReadFirst(Frames(contents), c, Frames(tail), rest);
      GoesOnTail(contents, handled, stops);
      ServeMessage(Frames(contents) + rest, c, Frames(tail) + rest, handled, stops);
      AllAreServed(tail, rest, handled + [c], stops);
    }
  }

  /** The first one after which it is set is handed on and ends the run, with everything after it unread. */
  lemma StopIsServed(
    contents: seq<bytes>, exit: bytes, rest: bytes, handled: seq<bytes>, stops: seq<bytes> -> bool)
    requires Sendable(contents) && GoesOn(contents, handled, stops) && 0 < |exit| <= MAX_CONTENT_LENGTH
    requires stops(handled + contents + [exit])
    ensures Serve(Frames(contents) + (Frame(exit) + rest), handled, stops) == (handled + contents + [exit], rest)
  {
    AllAreServed(contents, Frame(exit) + rest, handled, stops);
    ReadFrame(exit, rest);
    ServeMessage(Frame(exit) + rest, exit, rest, handled + contents, stops);
  }

  lemma ServeFailure(s: bytes, rest: bytes, handled: seq<bytes>, stops: seq<bytes> -> bool)
    requires ReadFrom(s) == (Failed, rest)
    ensures Serve(s, handled, stops) == Serve(rest, handled, stops)
  {
  }

  /** After an empty or an oversized frame the loop goes on, with the content as what comes next. */
  lemma BadFrameIsSkipped(content: bytes, rest: bytes, handled: seq<bytes>, stops: seq<bytes> -> bool)
    requires |content| < 0x8000_0000_0000_0000 && (content == [] || |content| > 10485760)
    ensures Serve(Frame(content) + rest, handled, stops) == Serve(content + rest, handled, stops)
  {
    ReadFrame(content, rest);
    ServeFailure(Frame(content) + rest, content + rest, handled, stops);
  }

  /** So it does after headers without a length ... */
  lemma NoLengthIsSkipped(rest: bytes, handled: seq<bytes>, stops: seq<bytes> -> bool)
    ensures Serve([13, 10] + rest, handled, stops) == Serve(rest, handled, stops)
  {
    ReadBlankLine(rest, 0);
    ServeFailure([13, 10] + rest, rest, handled, stops);
  }

  /** ... and after a length that is no number, on the line after it. */
  lemma BadLengthIsSkipped(line: bytes, rest: bytes, handled: seq<bytes>, stops: seq<bytes> -> bool)
    requires NEWLINE !in line && CONTENT_LENGTH <= TrimSpace(line + [NEWLINE])
    requires Atoi(TrimSpace(TrimSpace(line + [NEWLINE])[|CONTENT_LENGTH|..])).None?
    ensures Serve(line + [NEWLINE] + rest, handled, stops) == Serve(rest, handled, stops)
  {
    FirstLine(line + [NEWLINE], rest);
    ServeFailure(line + [NEWLINE] + rest, rest, handled, stops);
  }

  /** It ends where no line is left. */
  lemma LastLineEndsRun(s: bytes, handled: seq<bytes>, stops: seq<bytes> -> bool)
    requires 10 !in s
    ensures Serve(s, handled, stops) == (handled, [])
  {
    assert NewlineAt(s, 0) == |s|;
  }

  // ---------------------------------------------------------------- the reader

  class Server {
    var reader: bytes

    constructor (stream: bytes)
      ensures reader == stream
    {
      reader := stream;
    }

    /** `ReadString('\n')`: false at the end of the input, which it then exhausts. */
    method ReadLine() returns (line: bytes, ok: bool)
      modifies this
      ensures var (s, k) := (old(reader), NewlineAt(old(reader), 0));
              if k == |s| then !ok && reader == [] else ok && line == s[..k + 1] && reader == s[k + 1..]
    {
      var k := 0;
      while k < |reader| && reader[k] != NEWLINE
        invariant 0 <= k <= |reader| && NewlineAt(reader, 0) == NewlineAt(reader, k)
      {
        k := k + 1;
      }
      if k == |reader| {
        line, ok, reader := reader, false, [];
      } else {
        line, ok, reader := reader[..k + 1], true, reader[k + 1..];
      }
    }

    method ReadMessage() returns (outcome: Outcome)
      modifies this
      ensures (outcome, reader) == ReadFrom(old(reader))
    {
      var contentLength: int := 0;
      var blank := false;
      while !blank
        invariant if blank then ReadHeaders(old(reader), 0) == Done(contentLength, reader)
                  else ReadHeaders(reader, contentLength) == ReadHeaders(old(reader), 0)
        decreases !blank, |reader|
      {
        var line, ok := ReadLine();
        if !ok {
          return EndOfInput;
        }
        line := TrimSpace(line);
        if line == [] {
          blank := true;
        } else if CONTENT_LENGTH <= line {
          var n := Atoi(TrimSpace(line[|CONTENT_LENGTH|..]));
          if n.None? {
            return Failed;
          }
          contentLength := n.value;
        }
      }
      if contentLength == 0 || contentLength > MAX_CONTENT_LENGTH {
        return Failed;
      }
      if contentLength < 0 {
        return Panics;
      }
      if |reader| < contentLength {
        reader := [];
        return Failed;
      }
      outcome := Message(reader[..contentLength]);
      reader := reader[contentLength..];
    }

    /** `Run`, with the messages it hands on; every turn of its loop consumes input. */
    method Run(stops: seq<bytes> -> bool) returns (handled: seq<bytes>)
      modifies this
      ensures (handled, reader) == Serve(old(reader), [], stops)
    {
      handled := [];
      while true
        invariant Serve(reader, handled, stops) == Serve(old(reader), [], stops)
        decreases |reader|
      {
        var outcome := ReadMessage();
        if outcome.EndOfInput? || outcome.Panics? {
          return;
        }
        if outcome.Message? {
          handled := handled + [outcome.content];
          if stops(handled) {
            return;
          }
        }
      }
    }
  }
}
