/** The edit distance of pkg/errors/hints.go: the matrix loop, edit scripts, and the metric laws. */
module EditDistance {
  import opened Bytes

  // ---------------------------------------------------------------- edit scripts

  /** One edit of a byte string. */
  datatype Edit =
    | Delete(at: nat)
    | Insert(at: nat, b: byte)
    | Substitute(at: nat, b: byte)

  predicate Applicable(e: Edit, s: bytes) {
    if e.Insert? then e.at <= |s| else e.at < |s|
  }

  function Apply(e: Edit, s: bytes): bytes
    requires Applicable(e, s)
  {
    match e
    case Delete(k) => s[..k] + s[k + 1..]
    case Insert(k, b) => s[..k] + [b] + s[k..]
    case Substitute(k, b) => s[..k] + [b] + s[k + 1..]
  }

  /** Carrying out `script`, edit by edit, turns `s` into `t`. */
  predicate Turns(script: seq<Edit>, s: bytes, t: bytes) {
    if script == [] then s == t
    else Applicable(script[0], s) && Turns(script[1..], Apply(script[0], s), t)
  }

  // ---------------------------------------------------------------- the recurrence

  function Min3(a: int, b: int, c: int): (m: int)
    ensures m <= a && m <= b && m <= c && (m == a || m == b || m == c)
  {
    if a < b then if a < c then a else c
    else if b < c then b else c
  }

  function Cost(a: byte, b: byte): nat {
    if a != b then 1 else 0
  }

  /** The value the matrix holds for the prefixes `s` and `t`. */
  function Distance(s: bytes, t: bytes): nat
    decreases |s| + |t|
  {
    if s == [] then |t|
    else if t == [] then |s|
    else
      var s', t' := s[..|s| - 1], t[..|t| - 1];
      Min3(Distance(s', t) + 1, Distance(s, t') + 1, Distance(s', t') + Cost(s[|s| - 1], t[|t| - 1]))
  }

  // ---------------------------------------------------------------- the metric laws

  lemma {:induction false} DistanceBounds(s: bytes, t: bytes)
    ensures |s| - |t| <= Distance(s, t) && |t| - |s| <= Distance(s, t)
    ensures Distance(s, t) <= if |s| < |t| then |t| else |s|
    decreases |s| + |t|
  {
    if s != [] && t != [] {
      var s', t' := s[..|s| - 1], t[..|t| - 1];
      DistanceBounds(s', t);
      DistanceBounds(s, t');
      DistanceBounds(s', t');
    }
  }

  lemma {:induction false} ZeroMeansEqual(s: bytes, t: bytes)
    ensures Distance(s, t) == 0 <==> s == t
    decreases |s| + |t|
  {
    if s != [] && t != [] {
      var s', t' := s[..|s| - 1], t[..|t| - 1];
      ZeroMeansEqual(s', t');
      assert s == s' + [s[|s| - 1]] && t == t' + [t[|t| - 1]];
    }
  }

  lemma {:induction false} Symmetric(s: bytes, t: bytes)
    ensures Distance(s, t) == Distance(t, s)
    decreases |s| + |t|
  {
    if s != [] && t != [] {
      var s', t' := s[..|s| - 1], t[..|t| - 1];
      Symmetric(s', t);
      Symmetric(s, t');
      Symmetric(s', t');
    }
  }

  lemma {:induction false} Triangle(a: bytes, b: bytes, c: bytes)
    ensures Distance(a, c) <= Distance(a, b) + Distance(b, c)
    decreases |a| + |b| + |c|
  {
    if a == [] || b == [] || c == [] {
      DistanceBounds(a, b);
      DistanceBounds(b, c);
      DistanceBounds(a, c);
    } else {
      var a', b', c' := a[..|a| - 1], b[..|b| - 1], c[..|c| - 1];
      if Distance(a, b) == Distance(a', b) + 1 {
        Triangle(a', b, c);
      } else if Distance(b, c) == Distance(b, c') + 1 {
        Triangle(a, b, c');
      } else if Distance(a, b) == Distance(a, b') + 1 {
        if Distance(b, c) == Distance(b', c) + 1 {
          Triangle(a, b', c);
        } else {
          Triangle(a, b', c');
        }
      } else if Distance(b, c) == Distance(b', c) + 1 {
        Triangle(a', b', c);
      } else {
        Triangle(a', b', c');
      }
    }
  }

  // ---------------------------------------------------------------- no shorter script exists

  /** A common last byte never adds to the distance. */
  lemma CommonLastByte(s: bytes, t: bytes, x: byte)
    ensures Distance(s + [x], t + [x]) <= Distance(s, t)
  {
    assert (s + [x])[..|s|] == s && (t + [x])[..|t|] == t;
  }

  lemma Snoc(u: bytes, v: bytes)
    requires v != []
    ensures u + v == u + v[..|v| - 1] + [v[|v| - 1]]
  {
  }

  lemma {:induction false} CommonTail(s: bytes, t: bytes, v: bytes)
    ensures Distance(s + v, t + v) <= Distance(s, t)
    decreases |v|
  {
    if v == [] {
      assert s + v == s && t + v == t;
    } else {
      var v' := v[..|v| - 1];
      CommonTail(s, t, v');
      CommonLastByte(s + v', t + v', v[|v| - 1]);
      Snoc(s, v);
      Snoc(t, v);
    }
  }

  /** The two strings differ only after `u`, by at most one byte. */
  lemma OneByteApart(u: bytes, x: bytes, y: bytes)
    requires |x| <= 1 && |y| <= 1
    ensures Distance(u + x, u + y) <= 1
  {
    ZeroMeansEqual(u, u);
    assert u + [] == u;
    if |x| == 1 { assert (u + x)[..|u|] == u; }
    if |y| == 1 { assert (u + y)[..|u|] == u; }
  }

  /** An edit replaces at most one byte by at most one byte. */
  lemma EditParts(e: Edit, s: bytes) returns (u: bytes, x: bytes, y: bytes, v: bytes)
    requires Applicable(e, s)
    ensures |x| <= 1 && |y| <= 1 && s == u + x + v && Apply(e, s) == u + y + v
  {
    u := s[..e.at];
    match e
    case Delete(k) => x, y, v := [s[k]], [], s[k + 1..];
    case Insert(k, b) => x, y, v := [], [b], s[k..];
    case Substitute(k, b) => x, y, v := [s[k]], [b], s[k + 1..];
  }

  lemma OneEditIsOneStep(e: Edit, s: bytes)
    requires Applicable(e, s)
    ensures Distance(s, Apply(e, s)) <= 1
  {
    var u, x, y, v := EditParts(e, s);
    OneByteApart(u, x, y);
    CommonTail(u + x, u + y, v);
  }

  lemma {:induction false} NoShorterScript(script: seq<Edit>, s: bytes, t: bytes)
    requires Turns(script, s, t)
    ensures Distance(s, t) <= |script|
    decreases |script|
  {
    if script == [] {
      ZeroMeansEqual(s, t);
    } else {
      var s1 := Apply(script[0], s);
      OneEditIsOneStep(script[0], s);
      NoShorterScript(script[1..], s1, t);
      Triangle(s, s1, t);
    }
  }

  // ---------------------------------------------------------------- a script that short exists

  lemma ApplyBeforeTail(e: Edit, s: bytes, v: bytes)
    requires Applicable(e, s)
    ensures Applicable(e, s + v) && Apply(e, s + v) == Apply(e, s) + v
  {
    var k := if e.Insert? then e.at else e.at + 1;
    assert (s + v)[..e.at] == s[..e.at] && (s + v)[k..] == s[k..] + v;
  }

  /** A script for `s` works just as well in front of a tail. */
  lemma {:induction false} ScriptBeforeTail(script: seq<Edit>, s: bytes, t: bytes, v: bytes)
    requires Turns(script, s, t)
    ensures Turns(script, s + v, t + v)
    decreases |script|
  {
    if script != [] {
      ApplyBeforeTail(script[0], s, v);
      ScriptBeforeTail(script[1..], Apply(script[0], s), t, v);
    }
  }

  lemma {:induction false} ScriptThenEdit(script: seq<Edit>, s: bytes, t: bytes, e: Edit)
    requires Turns(script, s, t) && Applicable(e, t)
    ensures Turns(script + [e], s, Apply(e, t))
    decreases |script|
  {
    var longer := script + [e];
    if script == [] {
      assert longer[1..] == [];
    } else {
      assert longer[0] == script[0] && longer[1..] == script[1..] + [e];
      ScriptThenEdit(script[1..], Apply(script[0], s), t, e);
    }
  }

  lemma ThenInsert(script: seq<Edit>, s: bytes, t: bytes, y: byte)
    requires Turns(script, s, t)
    ensures Turns(script + [Insert(|t|, y)], s, t + [y])
  {
    ScriptThenEdit(script, s, t, Insert(|t|, y));
    assert Apply(Insert(|t|, y), t) == t + [y];
  }

  lemma ThenDelete(script: seq<Edit>, s: bytes, t: bytes, x: byte)
    requires Turns(script, s, t)
    ensures Turns(script + [Delete(|t|)], s + [x], t)
  {
    ScriptBeforeTail(script, s, t, [x]);
    ScriptThenEdit(script, s + [x], t + [x], Delete(|t|));
    assert Apply(Delete(|t|), t + [x]) == t;
  }

  lemma ThenSubstitute(script: seq<Edit>, s: bytes, t: bytes, x: byte, y: byte)
    requires Turns(script, s, t)
    ensures Turns(script + [Substitute(|t|, y)], s + [x], t + [y])
  {
    ScriptBeforeTail(script, s, t, [x]);
    ScriptThenEdit(script, s + [x], t + [x], Substitute(|t|, y));
    assert Apply(Substitute(|t|, y), t + [x]) == t + [y];
  }

  lemma Last(s: bytes)
    requires s != []
    ensures s == s[..|s| - 1] + [s[|s| - 1]]
  {
  }

  /** A shortest script, read off the recurrence. */
  lemma {:induction false} ShortestScript(s: bytes, t: bytes) returns (script: seq<Edit>)
    ensures Turns(script, s, t) && |script| == Distance(s, t)
    decreases |s| + |t|
  {
    if s == [] && t == [] {
      return [];
    }
    if s != [] && (t == [] || Distance(s, t) == Distance(s[..|s| - 1], t) + 1) {
      var s', x := s[..|s| - 1], s[|s| - 1];
      Last(s);
      script := ShortestScript(s', t);
      ThenDelete(script, s', t, x);
      script := script + [Delete(|t|)];
    } else if s == [] || Distance(s, t) == Distance(s, t[..|t| - 1]) + 1 {
      var t', y := t[..|t| - 1], t[|t| - 1];
      Last(t);
      script := ShortestScript(s, t');
      ThenInsert(script, s, t', y);
      script := script + [Insert(|t'|, y)];
    } else {
      script := ChangeLast(s, t);
    }
  }

  lemma {:induction false} ChangeLast(s: bytes, t: bytes) returns (script: seq<Edit>)
    requires s != [] && t != []
    requires Distance(s, t) == Distance(s[..|s| - 1], t[..|t| - 1]) + Cost(s[|s| - 1], t[|t| - 1])
    ensures Turns(script, s, t) && |script| == Distance(s, t)
    decreases |s| + |t|, 0
  {
    var (s', t', x, y) := (s[..|s| - 1], t[..|t| - 1], s[|s| - 1], t[|t| - 1]);
    Last(s);
    Last(t);
    script := ShortestScript(s', t');
    if x == y {
      ScriptBeforeTail(script, s', t', [x]);
    } else {
      ThenSubstitute(script, s', t', x, y);
      script := script + [Substitute(|t'|, y)];
    }
  }

  /** `Distance` is the length of a shortest edit script. */
  lemma DistanceIsShortestScript(s: bytes, t: bytes)
    ensures exists script :: Turns(script, s, t) && |script| == Distance(s, t)
    ensures forall script :: Turns(script, s, t) ==> Distance(s, t) <= |script|
  {
    var shortest := ShortestScript(s, t);
    forall script | Turns(script, s, t)
      ensures Distance(s, t) <= |script|
    {
      NoShorterScript(script, s, t);
    }
  }

  // ---------------------------------------------------------------- the matrix loop

  /** The distance of the first `i` bytes of `s` and the first `j` bytes of `t`. */
  function Cell(s: bytes, t: bytes, i: nat, j: nat): nat
    requires i <= |s| && j <= |t|
  {
    Distance(s[..i], t[..j])
  }

  /** A matrix entry depends on three earlier ones. */
  lemma CellFromNeighbours(s: bytes, t: bytes, i: nat, j: nat)
    requires 1 <= i <= |s| && 1 <= j <= |t|
    ensures Cell(s, t, i, j) == Min3(
              Cell(s, t, i - 1, j) + 1, Cell(s, t, i, j - 1) + 1,
              Cell(s, t, i - 1, j - 1) + Cost(s[i - 1], t[j - 1]))
  {
    assert s[..i][..i - 1] == s[..i - 1] && t[..j][..j - 1] == t[..j - 1];
  }

  /** The edges of the matrix, against the empty string. */
  lemma CellOnEdge(s: bytes, t: bytes, i: nat)
    ensures i <= |s| ==> Cell(s, t, i, 0) == i
    ensures i <= |t| ==> Cell(s, t, 0, i) == i
  {
  }

  /** The first `n` entries of row `i` hold their distances. */
  ghost predicate RowDone(matrix: array2<int>, s1: bytes, s2: bytes, i: nat, n: nat)
    requires matrix.Length0 == |s1| + 1 && matrix.Length1 == |s2| + 1 && i <= |s1| && n <= |s2| + 1
    reads matrix
  {
    forall l :: 0 <= l < n ==> matrix[i, l] == Cell(s1, s2, i, l)
  }

  /** The inner loop: row `i` from the row above it. */
  method FillRow(matrix: array2<int>, s1: bytes, s2: bytes, i: nat)
    requires matrix.Length0 == |s1| + 1 && matrix.Length1 == |s2| + 1 && 1 <= i <= |s1|
    requires RowDone(matrix, s1, s2, i - 1, |s2| + 1) && matrix[i, 0] == i
    modifies matrix
    ensures RowDone(matrix, s1, s2, i, |s2| + 1)
    ensures forall k, l :: 0 <= k <= |s1| && k != i && 0 <= l <= |s2| ==> matrix[k, l] == old(matrix[k, l])
  {
    CellOnEdge(s1, s2, i);
    for j := 1 to |s2| + 1
      invariant RowDone(matrix, s1, s2, i - 1, |s2| + 1)
      invariant RowDone(matrix, s1, s2, i, j)
      invariant forall k, l :: 0 <= k <= |s1| && k != i && 0 <= l <= |s2| ==> matrix[k, l] == old(matrix[k, l])
    {
      var cost := 0;
      if s1[i - 1] != s2[j - 1] {
        cost := 1;
      }
      CellFromNeighbours(s1, s2, i, j);
      matrix[i, j] := Min3(matrix[i - 1, j] + 1, matrix[i, j - 1] + 1, matrix[i - 1, j - 1] + cost);
    }
  }

  /** `levenshteinDistance`: the matrix, filled row by row. */
  method LevenshteinDistance(s1: bytes, s2: bytes) returns (distance: int)
    ensures distance == Distance(s1, s2)
  {
    var len1, len2 := |s1|, |s2|;
    var matrix := new int[len1 + 1, len2 + 1];
    for i := 0 to len1 + 1
      invariant forall k :: 0 <= k < i ==> matrix[k, 0] == k
    {
      matrix[i, 0] := i;
    }
    for j := 0 to len2 + 1
      invariant forall k :: 0 <= k <= len1 ==> matrix[k, 0] == k
      invariant RowDone(matrix, s1, s2, 0, j)
    {
      CellOnEdge(s1, s2, j);
      matrix[0, j] := j;
    }
    for i := 1 to len1 + 1
      invariant RowDone(matrix, s1, s2, i - 1, len2 + 1)
      invariant forall k :: i <= k <= len1 ==> matrix[k, 0] == k
    {
      FillRow(matrix, s1, s2, i);
    }
    assert s1[..len1] == s1 && s2[..len2] == s2;
    return matrix[len1, len2];
  }
}
