/**
  When a request is admitted by the rate limiter of pkg/mcp/ratelimit.go, said of the run alone:
  of the times, limits and weights of the requests and of which of them were admitted.
 */
module RateDecisions {
  import opened RateLimit

  /** The clock never runs backwards: no request before the bucket was created or before an earlier one. */
  predicate Monotone(born: real, rs: seq<Request>) {
    && (forall i :: 0 <= i < |rs| ==> born <= rs[i].now)
    && (forall i, j :: 0 <= i <= j < |rs| ==> rs[i].now <= rs[j].now)
  }

  /** The bucket before request `n`. */
  function StateBefore(born: real, rs: seq<Request>, n: nat): State
    requires n <= |rs|
  {
    After(NewState(born), rs[..n])
  }

  /** What request `n` is told. */
  function AnswerAt(born: real, rs: seq<Request>, n: nat): Answer
    requires n < |rs|
  {
    Decide(StateBefore(born, rs, n), rs[n].now, rs[n].limit, rs[n].weight).1
  }

  /** The number of requests admitted from number `j` up to `n`. */
  function AdmittedIn(born: real, rs: seq<Request>, j: nat, n: nat): nat
    requires j <= n <= |rs|
    decreases n
  {
    if j == n then 0 else AdmittedIn(born, rs, j, n - 1) + if AnswerAt(born, rs, n - 1).allowed then 1 else 0
  }

  /** Their weight. */
  function WeightIn(born: real, rs: seq<Request>, j: nat, n: nat): nat
    requires j <= n <= |rs|
    decreases n
  {
    if j == n then 0
    else WeightIn(born, rs, j, n - 1) + if AnswerAt(born, rs, n - 1).allowed then rs[n - 1].weight else 0
  }

  lemma StateSnoc(born: real, rs: seq<Request>, n: nat)
    requires n < |rs|
    ensures StateBefore(born, rs, n + 1) ==
            Decide(StateBefore(born, rs, n), rs[n].now, rs[n].limit, rs[n].weight).0
  {
    assert rs[..n + 1] == rs[..n] + [rs[n]];
    AfterSnoc(NewState(born), rs[..n], rs[n]);
  }

  // ---------------------------------------------------------------- the tokens

  /** What the requests admitted from number `j` on leave of ten tokens and what has come back since. */
  function Left(born: real, rs: seq<Request>, j: nat, n: nat): real
    requires j <= n < |rs|
  {
    10.0 + 10.0 * (rs[n].now - rs[j].now) - AdmittedIn(born, rs, j, n) as real
  }

  /** Counted from any earlier request on, there is room for one more. */
  predicate HasToken(born: real, rs: seq<Request>, n: nat)
    requires n < |rs|
  {
    forall j: nat :: j <= n ==> Left(born, rs, j, n) >= 1.0
  }

  /** The tokens before request `n`. */
  function Tokens(born: real, rs: seq<Request>, n: nat): real
    requires n < |rs|
  {
    Refill(StateBefore(born, rs, n), rs[n].now)
  }

  lemma FirstTokens(born: real, rs: seq<Request>)
    requires rs != [] && Monotone(born, rs)
    ensures Tokens(born, rs, 0) == 10.0
  {
    assert rs[..0] == [];
  }

  lemma NextTokens(born: real, rs: seq<Request>, n: nat)
    requires 0 < n < |rs|
    ensures var t := Tokens(born, rs, n - 1) - (if AnswerAt(born, rs, n - 1).allowed then 1.0 else 0.0)
                     + 10.0 * (rs[n].now - rs[n - 1].now);
            Tokens(born, rs, n) == if t > 10.0 then 10.0 else t
  {
    StateSnoc(born, rs, n - 1);
  }

  lemma LeftNext(born: real, rs: seq<Request>, j: nat, n: nat)
    requires j < n < |rs|
    ensures Left(born, rs, j, n) == Left(born, rs, j, n - 1)
              - (if AnswerAt(born, rs, n - 1).allowed then 1.0 else 0.0) + 10.0 * (rs[n].now - rs[n - 1].now)
  {
  }

  /** No count leaves less than the tokens ... */
  lemma {:induction false} TokensAtMost(born: real, rs: seq<Request>, j: nat, n: nat)
    requires j <= n < |rs| && Monotone(born, rs)
    ensures Tokens(born, rs, n) <= Left(born, rs, j, n)
    decreases n
  {
    if j < n {
      TokensAtMost(born, rs, j, n - 1);
      NextTokens(born, rs, n);
      LeftNext(born, rs, j, n);
    }
  }

  /** ... and some count leaves just them. */
  lemma {:induction false} TokensReached(born: real, rs: seq<Request>, n: nat) returns (j: nat)
    requires n < |rs| && Monotone(born, rs)
    ensures j <= n && Tokens(born, rs, n) == Left(born, rs, j, n)
    decreases n
  {
    if n == 0 {
      FirstTokens(born, rs);
      j := 0;
    } else {
      NextTokens(born, rs, n);
      if Tokens(born, rs, n) == 10.0 {
        j := n;
      } else {
        j := TokensReached(born, rs, n - 1);
        LeftNext(born, rs, j, n);
      }
    }
  }

  lemma TokenExactly(born: real, rs: seq<Request>, n: nat)
    requires n < |rs| && Monotone(born, rs)
    ensures Tokens(born, rs, n) >= 1.0 <==> HasToken(born, rs, n)
  {
    var j := TokensReached(born, rs, n);
    forall i: nat | i <= n
      ensures Tokens(born, rs, n) <= Left(born, rs, i, n)
    {
      TokensAtMost(born, rs, i, n);
    }
  }

  // ---------------------------------------------------------------- the window

  /** Request `n` has a weight and a token, and comes a minute or more after the window began: it begins a new one. */
  predicate Begins(born: real, rs: seq<Request>, n: nat)
    requires n < |rs|
    decreases n, 1
  {
    rs[n].weight > 0 && HasToken(born, rs, n) && rs[n].now - WindowStart(born, rs, n) >= 60.0
  }

  /** When the window before request `n` began. */
  function WindowStart(born: real, rs: seq<Request>, n: nat): real
    requires n <= |rs|
    decreases n, 0
  {
    if n == 0 then born else if Begins(born, rs, n - 1) then rs[n - 1].now else WindowStart(born, rs, n - 1)
  }

  /** With which request it began. */
  function WindowFirst(born: real, rs: seq<Request>, n: nat): (first: nat)
    requires n <= |rs|
    ensures first <= n
    decreases n
  {
    if n == 0 then 0 else if Begins(born, rs, n - 1) then n - 1 else WindowFirst(born, rs, n - 1)
  }

  lemma {:induction false} WindowIsKept(born: real, rs: seq<Request>, n: nat)
    requires n <= |rs| && Monotone(born, rs)
    ensures StateBefore(born, rs, n).windowStart == WindowStart(born, rs, n)
    ensures StateBefore(born, rs, n).weightedCount == WeightIn(born, rs, WindowFirst(born, rs, n), n)
    decreases n
  {
    if n == 0 {
      assert rs[..0] == [];
    } else {
      WindowIsKept(born, rs, n - 1);
      StateSnoc(born, rs, n - 1);
      TokenExactly(born, rs, n - 1);
    }
  }

  // ---------------------------------------------------------------- the decision

  /** The weight admitted in the window of request `n` before it. */
  function Used(born: real, rs: seq<Request>, n: nat): nat
    requires n < |rs|
  {
    if Begins(born, rs, n) then 0 else WeightIn(born, rs, WindowFirst(born, rs, n), n)
  }

  /** One decision, by the bucket: whether there is a token, whether a window begins, and what is used of it. */
  lemma DecisionOnBucket(b: State, r: Request, a: Answer, token: bool, begins: bool, used: int)
    requires a == Decide(b, r.now, r.limit, r.weight).1 && token == (Refill(b, r.now) >= 1.0)
    requires begins == (r.weight > 0 && token && r.now - b.windowStart >= 60.0)
    requires used == if begins then 0 else b.weightedCount
    ensures a.limit == r.limit && (a.allowed <==> token && (r.weight == 0 || used + r.weight <= r.limit))
    ensures !token ==> a.remaining == 0
    ensures token ==> a.resetTime == (if begins then r.now else b.windowStart) + 60.0
    ensures token ==> a.remaining == AtLeastZero(r.limit - used - if a.allowed then r.weight else 0)
  {
  }

  lemma RoomIsToken(born: real, rs: seq<Request>, n: nat)
    requires n < |rs|
    ensures HasToken(born, rs, n) <==> forall j: nat :: j <= n ==>
              AdmittedIn(born, rs, j, n) as real + 1.0 <= 10.0 + 10.0 * (rs[n].now - rs[j].now)
  {
    forall j: nat | j <= n
      ensures Left(born, rs, j, n) >= 1.0 <==>
              AdmittedIn(born, rs, j, n) as real + 1.0 <= 10.0 + 10.0 * (rs[n].now - rs[j].now)
    {
    }
  }

  /**
    Under a monotone clock a request is admitted if and only if, counted from any earlier request
    on, ten and ten more for every second leave room for one more, and, when it has a weight, what
    its window has admitted and that weight are within its own limit.  The answer tells that limit,
    what then remains of it, and the end of the window.
   */
  lemma DecisionExactly(born: real, rs: seq<Request>, n: nat)
    requires n < |rs| && Monotone(born, rs)
    ensures AnswerAt(born, rs, n).limit == rs[n].limit
    ensures AnswerAt(born, rs, n).allowed <==>
            && (forall j: nat :: j <= n ==>
                  AdmittedIn(born, rs, j, n) as real + 1.0 <= 10.0 + 10.0 * (rs[n].now - rs[j].now))
            && (rs[n].weight == 0 || Used(born, rs, n) + rs[n].weight <= rs[n].limit)
    ensures !HasToken(born, rs, n) ==> AnswerAt(born, rs, n).remaining == 0
    ensures HasToken(born, rs, n) ==>
              var left := rs[n].limit - Used(born, rs, n) -
                          if AnswerAt(born, rs, n).allowed then rs[n].weight else 0;
              AnswerAt(born, rs, n).remaining == if left < 0 then 0 else left
    ensures HasToken(born, rs, n) ==>
              AnswerAt(born, rs, n).resetTime ==
              (if Begins(born, rs, n) then rs[n].now else WindowStart(born, rs, n)) + 60.0
  {
    TokenExactly(born, rs, n);
    WindowIsKept(born, rs, n);
    RoomIsToken(born, rs, n);
    DecisionOnBucket(
      StateBefore(born, rs, n), rs[n], AnswerAt(born, rs, n),
      HasToken(born, rs, n), Begins(born, rs, n), Used(born, rs, n));
  }
}
