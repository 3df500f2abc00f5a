/**
  The backward bracket scan of signature help (`getFunctionAtPosition` of pkg/lsp/handler.go),
  against a forward stack of open parentheses.
 */
module SignatureHelp {
  import opened Bytes
  import opened Options
  import opened Positions

  /** An open parenthesis and the commas seen at its own level. */
  datatype Frame = Frame(open: nat, commas: nat)

  /** Reading `line` from the left: the parentheses still open after `n` bytes, innermost last. */
  function Stack(line: bytes, n: nat): (st: seq<Frame>)
    requires n <= |line|
    ensures forall k :: 0 <= k < |st| ==> st[k].open < n
  {
    if n == 0 then []
    else
      var (st, b) := (Stack(line, n - 1), line[n - 1]);
      if b == LPAREN then st + [Frame(n - 1, 0)]
      else if st == [] then []
      else
        var top := st[|st| - 1];
        if b == RPAREN then st[..|st| - 1]
        else if b == COMMA then st[..|st| - 1] + [top.(commas := top.commas + 1)]
        else st
  }

  predicate IsWordByte(c: byte) {
    IsLetter(c) || IsDigit(c) || c == UNDERSCORE
  }

  /** `w` is the longest word that ends just before `end`. */
  predicate IsWordBefore(line: bytes, end: nat, w: bytes)
    requires end <= |line|
  {
    && |w| <= end && w == line[end - |w|..end]
    && (forall k :: end - |w| <= k < end ==> IsWordByte(line[k]))
    && (|w| < end ==> !IsWordByte(line[end - |w| - 1]))
  }

  /**
    What a backward scan that stands before byte `n`, with `closed` parentheses to skip and
    `commas` counted, will find.
   */
  function Found(line: bytes, n: nat, closed: nat, commas: nat): Option<Frame>
    requires n <= |line|
  {
    var st := Stack(line, n);
    if |st| <= closed then None
    else var f := st[|st| - 1 - closed]; Some(Frame(f.open, commas + f.commas))
  }

  /** One byte further back. */
  lemma FoundBefore(line: bytes, n: nat, closed: nat, commas: nat)
    requires 0 < n <= |line|
    ensures Found(line, n, closed, commas) ==
            var b := line[n - 1];
            if b == RPAREN then Found(line, n - 1, closed + 1, commas)
            else if b == LPAREN then
              if closed == 0 then Some(Frame(n - 1, commas)) else Found(line, n - 1, closed - 1, commas)
            else Found(line, n - 1, closed, commas + if b == COMMA && closed == 0 then 1 else 0)
  {
  }

  /** The backward scan. */
  method ScanBack(line: bytes, character: nat) returns (target: Option<Frame>)
    requires character <= |line|
    ensures target == Found(line, character, 0, 0)
  {
    var parenCount, paramIndex := 0, 0;
    for i := character downto 0
      invariant parenCount >= 0 && paramIndex >= 0
      invariant Found(line, i, parenCount, paramIndex) == Found(line, character, 0, 0)
    {
      var ch := line[i];
      FoundBefore(line, i + 1, parenCount, paramIndex);
      if ch == RPAREN {
        parenCount := parenCount + 1;
      } else if ch == LPAREN {
        if parenCount == 0 {
          return Some(Frame(i, paramIndex));
        }
        parenCount := parenCount - 1;
      } else if ch == COMMA && parenCount == 0 {
        paramIndex := paramIndex + 1;
      }
    }
    return None;
  }

  /** The word before the parenthesis. */
  method WordBefore(line: bytes, end: nat) returns (w: bytes)
    requires end <= |line|
    ensures IsWordBefore(line, end, w)
  {
    var start := end;
    while start > 0 && IsWordByte(line[start - 1])
      invariant 0 <= start <= end
      invariant forall k :: start <= k < end ==> IsWordByte(line[k])
    {
      start := start - 1;
    }
    return line[start..end];
  }

  /**
    The backward scan finds the innermost parenthesis that is open at the cursor, with the commas
    at its level, and finds none exactly when none is open.
   */
  lemma ScanIsTopOfStack(line: bytes, character: nat)
    requires character <= |line|
    ensures var st := Stack(line, character);
            Found(line, character, 0, 0) == if st == [] then None else Some(st[|st| - 1])
  {
  }

  // ---------------------------------------------------------------- the same, by counting

  /** How many more opening than closing parentheses are in `line[i..n]`. */
  function Surplus(line: bytes, i: nat, n: nat): int
    requires i <= n <= |line|
    decreases n
  {
    if i == n then 0
    else Surplus(line, i, n - 1) + if line[n - 1] == '(' as int then 1 else if line[n - 1] == ')' as int then -1 else 0
  }

  /** The number of commas in `line[i..n]` from which on as many parentheses are closed as are opened. */
  function CommasAtLevel(line: bytes, i: nat, n: nat): nat
    requires i <= n <= |line|
    decreases n - i
  {
    if i == n then 0
    else CommasAtLevel(line, i + 1, n) + if line[i] == ',' as int && Surplus(line, i + 1, n) == 0 then 1 else 0
  }

  /** The last parenthesis of `line[..n]` that is open at `n`, and the commas at its level. */
  predicate IsInnermost(line: bytes, n: nat, open: nat, commas: nat)
    requires open < n <= |line|
  {
    && line[open] == '(' as int && Surplus(line, open, n) == 1
    && (forall i :: open < i <= n ==> Surplus(line, i, n) <= 0)
    && commas == CommasAtLevel(line, open + 1, n)
  }

  lemma {:induction false} SurplusCons(line: bytes, i: nat, n: nat)
    requires i < n <= |line|
    ensures Surplus(line, i, n) == Surplus(line, i + 1, n) +
            if line[i] == '(' as int then 1 else if line[i] == ')' as int then -1 else 0
    decreases n
  {
    if i < n - 1 { SurplusCons(line, i, n - 1); }
  }

  /** One byte further back, in these terms. */
  lemma FoundStep(line: bytes, i: nat, n: nat)
    requires 0 < i <= n <= |line| && Surplus(line, i, n) <= 0
    ensures Found(line, i, -Surplus(line, i, n), CommasAtLevel(line, i, n)) ==
            if Surplus(line, i - 1, n) > 0 then Some(Frame(i - 1, CommasAtLevel(line, i, n)))
            else Found(line, i - 1, -Surplus(line, i - 1, n), CommasAtLevel(line, i - 1, n))
    ensures Surplus(line, i - 1, n) > 0 ==> line[i - 1] == '(' as int && Surplus(line, i - 1, n) == 1
  {
    SurplusCons(line, i - 1, n);
    FoundBefore(line, i, -Surplus(line, i, n), CommasAtLevel(line, i, n));
  }

  /** What the scan that stands before byte `i` will find, with the closed ones and the commas behind it counted. */
  lemma {:induction false} FoundByCounting(line: bytes, i: nat, n: nat, target: Option<Frame>)
    requires i <= n <= |line| && forall k :: i <= k <= n ==> Surplus(line, k, n) <= 0
    requires target == Found(line, i, -Surplus(line, i, n), CommasAtLevel(line, i, n))
    ensures target.Some? ==> target.value.open < i && IsInnermost(line, n, target.value.open, target.value.commas)
    ensures target.None? ==> forall k :: 0 <= k <= n ==> Surplus(line, k, n) <= 0
    decreases i
  {
    if i > 0 {
      FoundStep(line, i, n);
      if Surplus(line, i - 1, n) <= 0 {
        FoundByCounting(line, i - 1, n, target);
      }
    }
  }

  /**
    The innermost open parenthesis and its commas, said by counting: it is the last one from which
    on more are opened than closed, and there is none exactly when there is no such place.
   */
  lemma TopOfStackExactly(line: bytes, n: nat)
    requires n <= |line|
    ensures var st := Stack(line, n);
            if st == [] then forall k :: 0 <= k <= n ==> Surplus(line, k, n) <= 0
            else st[|st| - 1].open < n && IsInnermost(line, n, st[|st| - 1].open, st[|st| - 1].commas)
  {
    FoundByCounting(line, n, n, Found(line, n, 0, 0));
    ScanIsTopOfStack(line, n);
  }

  /** No other word ends there, and no longer run of such bytes does. */
  lemma WordIsLongest(line: bytes, end: nat, w: bytes, n: nat)
    requires end <= |line| && IsWordBefore(line, end, w)
    requires n <= end && forall k :: end - n <= k < end ==> IsWordByte(line[k])
    ensures n <= |w| && w == line[end - |w|..end] && forall k :: end - |w| <= k < end ==> IsWordByte(line[k])
  {
    assert |w| < end ==> !IsWordByte(line[end - |w| - 1]);
  }

  /** The bytes of words: letters, digits and the underscore. */
  lemma WordBytesExactly(c: byte)
    ensures IsWordByte(c) <==>
            || 'a' as int <= c <= 'z' as int || 'A' as int <= c <= 'Z' as int || '0' as int <= c <= '9' as int
            || c == '_' as int
  {
  }

  /** `getFunctionAtPosition`: the name before the innermost open parenthesis and the parameter the cursor is in. */
  method GetFunctionAtPosition(content: bytes, line: nat, character: nat) returns (name: bytes, param: nat)
    ensures var lines := Lines(content, 0);
            if line >= |lines| || character > |lines[line]| || Stack(lines[line], character) == [] then
              name == [] && param == 0
            else
              var st := Stack(lines[line], character);
              var top := st[|st| - 1];
              IsWordBefore(lines[line], top.open, name) && param == if name == [] then 0 else top.commas
  {
    var lines := Lines(content, 0);
    if line >= |lines| {
      return [], 0;
    }
    var text := lines[line];
    if character > |text| {
      return [], 0;
    }
    var target := ScanBack(text, character);
    ScanIsTopOfStack(text, character);
    if target.None? {
      return [], 0;
    }
    name := WordBefore(text, target.value.open);
    if name == [] {
      return [], 0;
    }
    return name, target.value.commas;
  }
}
