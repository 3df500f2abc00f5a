/** The request limiter of the language server: `checkRateLimit` of pkg/lsp/server.go. */
module LspRateLimit {

  const RATE_LIMIT_REQUESTS := 100
  const RATE_LIMIT_WINDOW := 1.0

  datatype State = State(requestCount: int, lastReset: real)

  function Check(s: State, now: real): (State, bool) {
    if now - s.lastReset >= RATE_LIMIT_WINDOW then (State(1, now), true)
    else (s.(requestCount := s.requestCount + 1), s.requestCount + 1 <= RATE_LIMIT_REQUESTS)
  }

  class Server {
    var requestCount: int
    var lastReset: real

    ghost function Abs(): State
      reads this
    {
      State(requestCount, lastReset)
    }

    constructor (now: real)
      ensures Abs() == State(0, now)
    {
      requestCount, lastReset := 0, now;
    }

    method CheckRateLimit(now: real) returns (ok: bool)
      modifies this
      ensures (Abs(), ok) == Check(old(Abs()), now)
    {
      var elapsed := now - lastReset;
      if elapsed >= RATE_LIMIT_WINDOW {
        lastReset := now;
        requestCount := 1;
        return true;
      }
      requestCount := requestCount + 1;
      return requestCount <= RATE_LIMIT_REQUESTS;
    }
  }

  /** The clock never runs backwards. */
  predicate Ordered(t: real, times: seq<real>)
    decreases |times|
  {
    times == [] || (t <= times[0] && Ordered(times[0], times[1..]))
  }

  /** The number of messages of a run let through at a time in `[from, to)`. */
  function Admitted(s: State, times: seq<real>, from: real, to: real): nat
    decreases |times|
  {
    if times == [] then 0
    else
      var (s', ok) := Check(s, times[0]);
      (if ok && from <= times[0] < to then 1 else 0) + Admitted(s', times[1..], from, to)
  }

  /** What the current window still lets through. */
  function Room(s: State): nat {
    if s.requestCount >= RATE_LIMIT_REQUESTS then 0 else RATE_LIMIT_REQUESTS - s.requestCount
  }

  /** A message at `t` finds the current window still open. */
  predicate Open(s: State, t: real) {
    t < s.lastReset + RATE_LIMIT_WINDOW
  }

  /**
    The most that any messages from time `t` on can get through in the window-long interval from
    `from`.
   */
  function Most(s: State, t: real, from: real): nat {
    if t >= from + RATE_LIMIT_WINDOW || s.lastReset >= from + RATE_LIMIT_WINDOW then 0
    else if s.lastReset >= from then Room(s)
    else if Open(s, t) && Open(s, from) then Room(s) + RATE_LIMIT_REQUESTS
    else if t < from && s.lastReset + RATE_LIMIT_WINDOW < from then 2 * RATE_LIMIT_REQUESTS - 1
    else RATE_LIMIT_REQUESTS
  }

  // ---------------------------------------------------------------- no run gets more through

  lemma {:induction false} CheckSpends(s: State, now: real, t: real, from: real)
    requires s.requestCount >= 0 && s.lastReset <= t <= now
    ensures var (s', ok) := Check(s, now);
            (if ok && from <= now < from + RATE_LIMIT_WINDOW then 1 else 0) + Most(s', now, from) <= Most(s, t, from)
  {
  }

  lemma {:induction false} MostSuffices(s: State, times: seq<real>, t: real, from: real)
    requires s.requestCount >= 0 && s.lastReset <= t && Ordered(t, times)
    ensures Admitted(s, times, from, from + RATE_LIMIT_WINDOW) <= Most(s, t, from)
    decreases |times|
  {
    if times != [] {
      CheckSpends(s, times[0], t, from);
      MostSuffices(Check(s, times[0]).0, times[1..], times[0], from);
    }
  }

  // ---------------------------------------------------------------- some run gets as much through

  /** `n` messages at `now`, and then the rest. */
  function Load(now: real, n: nat, rest: seq<real>): seq<real> {
    if n == 0 then rest else [now] + Load(now, n - 1, rest)
  }

  /** Within the window and its limit they all pass. */
  lemma {:induction false} LoadPasses(s: State, t: real, now: real, n: nat, rest: seq<real>, from: real, to: real)
    requires t <= now && Open(s, now) && s.requestCount + n <= RATE_LIMIT_REQUESTS && from <= now < to
    requires Ordered(now, rest)
    ensures Ordered(t, Load(now, n, rest))
    ensures Admitted(s, Load(now, n, rest), from, to) ==
            n + Admitted(s.(requestCount := s.requestCount + n), rest, from, to)
    decreases n
  {
    if n == 0 {
      OrderedLater(t, now, rest);
    } else {
      LoadPasses(s.(requestCount := s.requestCount + 1), now, now, n - 1, rest, from, to);
      assert Load(now, n, rest)[1..] == Load(now, n - 1, rest);
    }
  }

  lemma OrderedLater(t: real, t': real, times: seq<real>)
    requires t <= t' && Ordered(t', times)
    ensures Ordered(t, times)
  {
  }

  /** A message at `now` that resets the window, and then the rest. */
  lemma ResetPasses(s: State, t: real, now: real, rest: seq<real>, from: real, to: real)
    requires t <= now && !Open(s, now) && Ordered(now, rest)
    ensures Ordered(t, [now] + rest)
    ensures Admitted(s, [now] + rest, from, to) ==
            (if from <= now < to then 1 else 0) + Admitted(State(1, now), rest, from, to)
  {
    assert ([now] + rest)[1..] == rest;
  }

  /** A whole window at once, opened at `now`. */
  lemma FullWindow(s: State, t: real, now: real, from: real) returns (times: seq<real>)
    requires t <= now && !Open(s, now) && from <= now < from + RATE_LIMIT_WINDOW
    ensures Ordered(t, times) && Admitted(s, times, from, from + RATE_LIMIT_WINDOW) == RATE_LIMIT_REQUESTS
  {
    var n := RATE_LIMIT_REQUESTS - 1;
    LoadPasses(State(1, now), now, now, n, [], from, from + RATE_LIMIT_WINDOW);
    times := [now] + Load(now, n, []);
    ResetPasses(s, t, now, Load(now, n, []), from, from + RATE_LIMIT_WINDOW);
  }

  /** What is left of the current window, and then a whole window. */
  lemma TwoWindows(s: State, t: real, now: real, from: real) returns (times: seq<real>)
    requires t <= now && Open(s, now) && from <= now < from + RATE_LIMIT_WINDOW && s.lastReset < from
    ensures Ordered(t, times)
    ensures Admitted(s, times, from, from + RATE_LIMIT_WINDOW) == Room(s) + RATE_LIMIT_REQUESTS
  {
    var reset := s.lastReset + RATE_LIMIT_WINDOW;
    times := FullWindow(s.(requestCount := s.requestCount + Room(s)), now, reset, from);
    if Room(s) > 0 {
      LoadPasses(s, t, now, Room(s), times, from, from + RATE_LIMIT_WINDOW);
      times := Load(now, Room(s), times);
    } else {
      OrderedLater(t, now, times);
    }
  }

  /** One message opens a window that covers `from`, so that two windows touch the interval. */
  lemma WindowBefore(s: State, t: real, from: real) returns (times: seq<real>)
    requires t < from && s.lastReset + RATE_LIMIT_WINDOW < from
    ensures Ordered(t, times)
    ensures Admitted(s, times, from, from + RATE_LIMIT_WINDOW) == 2 * RATE_LIMIT_REQUESTS - 1
  {
    var latest := if t > s.lastReset + RATE_LIMIT_WINDOW then t else s.lastReset + RATE_LIMIT_WINDOW;
    var now := if latest > from - 0.5 then latest else from - 0.5;
    var rest := TwoWindows(State(1, now), now, from, from);
    ResetPasses(s, t, now, rest, from, from + RATE_LIMIT_WINDOW);
    times := [now] + rest;
  }

  lemma MostIsReached(s: State, t: real, from: real) returns (times: seq<real>)
    requires s.requestCount >= 0 && s.lastReset <= t
    ensures Ordered(t, times) && Admitted(s, times, from, from + RATE_LIMIT_WINDOW) == Most(s, t, from)
  {
    var later := if t > from then t else from;
    if Most(s, t, from) == 0 {
      times := [];
    } else if s.lastReset >= from {
      LoadPasses(s, t, t, Room(s), [], from, from + RATE_LIMIT_WINDOW);
      times := Load(t, Room(s), []);
    } else if Open(s, t) && Open(s, from) {
      times := TwoWindows(s, t, later, from);
    } else if t < from && s.lastReset + RATE_LIMIT_WINDOW < from {
      times := WindowBefore(s, t, from);
    } else {
      times := FullWindow(s, t, later, from);
    }
  }

  // ---------------------------------------------------------------- the bounds

  /** `Most` is exact: no run gets more through, and some run gets as much. */
  lemma MostIsExact(s: State, t: real, from: real)
    requires s.requestCount >= 0 && s.lastReset <= t
    ensures forall times :: Ordered(t, times) ==> Admitted(s, times, from, from + RATE_LIMIT_WINDOW) <= Most(s, t, from)
    ensures exists times :: Ordered(t, times) && Admitted(s, times, from, from + RATE_LIMIT_WINDOW) == Most(s, t, from)
  {
    forall times | Ordered(t, times)
      ensures Admitted(s, times, from, from + RATE_LIMIT_WINDOW) <= Most(s, t, from)
    {
      MostSuffices(s, times, t, from);
    }
    var times := MostIsReached(s, t, from);
  }

  /**
    Two windows can touch the interval from `from`: the open one has room and covers `from`, or
    there is time to open another one that does.
   */
  predicate Straddles(s: State, t: real, from: real) {
    && s.lastReset < from
    && (|| (t < from && s.lastReset + RATE_LIMIT_WINDOW < from)
        || (Open(s, t) && Open(s, from) && Room(s) > 0))
  }

  /** The documented 100 per rolling window hold for an interval exactly when no two windows can touch it. */
  lemma RollingWindowExactly(s: State, t: real, from: real)
    requires s.requestCount >= 0 && s.lastReset <= t
    ensures (forall times :: Ordered(t, times) ==>
               Admitted(s, times, from, from + 1.0) <= 100)
            <==> !Straddles(s, t, from)
  {
    MostIsExact(s, t, from);
    assert Most(s, t, from) <= RATE_LIMIT_REQUESTS <==> !Straddles(s, t, from);
  }

  /**
    At most 200 messages pass in any interval as long as the window, and at most 199 unless the
    window open at the start has counted no message, as only a new server's has not.
   */
  lemma AnyIntervalBound(s: State, times: seq<real>, t: real, from: real)
    requires s.requestCount >= 0 && s.lastReset <= t && Ordered(t, times)
    ensures Admitted(s, times, from, from + 1.0) <=
            if s.requestCount == 0 then 200 else 199
  {
    MostSuffices(s, times, t, from);
  }

  /** Only the interval that starts within a window without a message can see 200, and it can. */
  lemma AllOfTwoWindowsExactly(s: State, t: real, from: real)
    requires s.requestCount >= 0 && s.lastReset <= t
    ensures (exists times :: Ordered(t, times) &&
               Admitted(s, times, from, from + 1.0) == 200)
            <==> s.requestCount == 0 && s.lastReset < from && Open(s, from) && Open(s, t)
  {
    MostIsExact(s, t, from);
    assert Most(s, t, from) == 2 * RATE_LIMIT_REQUESTS <==>
           s.requestCount == 0 && s.lastReset < from && Open(s, from) && Open(s, t);
  }

  // ---------------------------------------------------------------- one window

  /** Some message of the run resets the window at `r`. */
  predicate ResetsAt(s: State, times: seq<real>, r: real)
    decreases |times|
  {
    times != [] && ((times[0] == r && !Open(s, r)) || ResetsAt(Check(s, times[0]).0, times[1..], r))
  }

  lemma {:induction false} OpenIsNotReset(s: State, times: seq<real>, r: real)
    requires Open(s, r) && Ordered(r, times)
    ensures !ResetsAt(s, times, r)
    decreases |times|
  {
    if times != [] {
      if times[0] == r {
        OpenIsNotReset(Check(s, r).0, times[1..], r);
      } else {
        NotAgain(Check(s, times[0]).0, times[1..], times[0], r);
      }
    }
  }

  lemma {:induction false} NotAgain(s: State, times: seq<real>, t: real, r: real)
    requires r < t && Ordered(t, times)
    ensures !ResetsAt(s, times, r)
    decreases |times|
  {
    if times != [] {
      NotAgain(Check(s, times[0]).0, times[1..], times[0], r);
    }
  }

  /** In every run, at most 100 messages pass in a window from its reset on, the one that resets it included. */
  lemma {:induction false} OneWindowBound(s: State, times: seq<real>, t: real, r: real)
    requires s.requestCount >= 0 && s.lastReset <= t && Ordered(t, times) && ResetsAt(s, times, r)
    ensures Admitted(s, times, r, r + 1.0) <= 100
    decreases |times|
  {
    var now, s' := times[0], Check(s, times[0]).0;
    if now == r {
      if Open(s, r) {
        OpenIsNotReset(s', times[1..], r);
      }
      MostSuffices(s, times, r, r);
    } else {
      if r < now {
        NotAgain(s', times[1..], now, r);
      }
      OneWindowBound(s', times[1..], now, r);
    }
  }

  /** The first window of a server has no resetting message: at most what is left of it passes. */
  lemma OpenWindowBound(s: State, times: seq<real>, t: real)
    requires s.requestCount >= 0 && s.lastReset <= t && Ordered(t, times)
    ensures Admitted(s, times, s.lastReset, s.lastReset + RATE_LIMIT_WINDOW) <= Room(s)
  {
    MostSuffices(s, times, t, s.lastReset);
  }
}
