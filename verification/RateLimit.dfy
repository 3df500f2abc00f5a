/**
  The rate limiter of pkg/mcp/ratelimit.go: one bucket per client, with a token bucket for bursts
  and a weighted window whose limit depends on the load.  Times and tokens are reals, in seconds.
 */
module RateLimit {

  const BURST_LIMIT := 10
  const SUSTAINED_LIMIT := 120
  const ELEVATED_LIMIT := 60
  const CRITICAL_LIMIT := 30
  const ELEVATED_THRESHOLD := 50
  const CRITICAL_THRESHOLD := 80
  const MINUTE := 60.0
  const STALE_TIMEOUT := 600.0

  /** The sustained limit under a number of active requests: it falls in two steps. */
  function CurrentLimit(active: int): (limit: int)
    ensures limit in {CRITICAL_LIMIT, ELEVATED_LIMIT, SUSTAINED_LIMIT}
    ensures limit == SUSTAINED_LIMIT <==> active <= ELEVATED_THRESHOLD
    ensures limit == CRITICAL_LIMIT <==> active > CRITICAL_THRESHOLD
  {
    if active > CRITICAL_THRESHOLD then CRITICAL_LIMIT
    else if active > ELEVATED_THRESHOLD then ELEVATED_LIMIT
    else SUSTAINED_LIMIT
  }

  datatype State = State(
    burstTokens: real,
    lastBurst: real,
    weightedCount: int,
    windowStart: real,
    lastSeen: real)

  datatype Answer = Answer(allowed: bool, limit: int, remaining: int, resetTime: real)

  function NewState(now: real): State {
    State(BURST_LIMIT as real, now, 0, now, now)
  }

  function AtLeastZero(n: int): int {
    if n < 0 then 0 else n
  }

  /** The tokens after the refill at `now`. */
  function Refill(b: State, now: real): real {
    var t := b.burstTokens + (now - b.lastBurst) * BURST_LIMIT as real;
    if t > BURST_LIMIT as real then BURST_LIMIT as real else t
  }

  /** How long a token takes to come back, in milliseconds. */
  function MillisecondsToToken(tokens: real): real {
    (1.0 - tokens) / BURST_LIMIT as real * 1000.0
  }

  /** The wait that is announced: whole milliseconds, the rest is cut off. */
  function Wait(tokens: real): real {
    MillisecondsToToken(tokens).Floor as real / 1000.0
  }

  /** One decision about a request of `weight` under `limit`, on one bucket. */
  function Decide(b: State, now: real, limit: int, weight: nat): (State, Answer) {
    var t := Refill(b, now);
    var b1 := b.(lastSeen := now, burstTokens := t, lastBurst := now);
    if t < 1.0 then
      (b1, Answer(false, limit, 0, now + Wait(t)))
    else if weight == 0 then
      (b1.(burstTokens := t - 1.0), Answer(true, limit, AtLeastZero(limit - b.weightedCount), b.windowStart + MINUTE))
    else
      var b2 := if now - b.windowStart >= MINUTE then b1.(weightedCount := 0, windowStart := now) else b1;
      var reset := b2.windowStart + MINUTE;
      if b2.weightedCount + weight > limit then
        (b2, Answer(false, limit, AtLeastZero(limit - b2.weightedCount), reset))
      else
        (b2.(burstTokens := t - 1.0, weightedCount := b2.weightedCount + weight),
         Answer(true, limit, AtLeastZero(limit - b2.weightedCount - weight), reset))
  }

  // ---------------------------------------------------------------- runs of one bucket

  datatype Request = Request(now: real, limit: int, weight: nat)

  /** The bucket after a run of requests. */
  function After(b: State, rs: seq<Request>): State
    decreases |rs|
  {
    if rs == [] then b else After(Decide(b, rs[0].now, rs[0].limit, rs[0].weight).0, rs[1..])
  }

  /** The clock never runs backwards: every request comes at or after `t` and the one before it. */
  predicate Ordered(t: real, rs: seq<Request>)
    decreases |rs|
  {
    rs == [] || (t <= rs[0].now && Ordered(rs[0].now, rs[1..]))
  }

  /** The number of requests of a run admitted at a time in `[from, to]`. */
  function Admitted(b: State, rs: seq<Request>, from: real, to: real): nat
    decreases |rs|
  {
    if rs == [] then 0
    else
      var (b', a) := Decide(b, rs[0].now, rs[0].limit, rs[0].weight);
      (if a.allowed && from <= rs[0].now <= to then 1 else 0) + Admitted(b', rs[1..], from, to)
  }

  function AdmittedEver(b: State, rs: seq<Request>): nat
    decreases |rs|
  {
    if rs == [] then 0
    else
      var (b', a) := Decide(b, rs[0].now, rs[0].limit, rs[0].weight);
      (if a.allowed then 1 else 0) + AdmittedEver(b', rs[1..])
  }

  /** The weight of a run admitted at a time in `[from, to)`. */
  function AdmittedWeight(b: State, rs: seq<Request>, from: real, to: real): nat
    decreases |rs|
  {
    if rs == [] then 0
    else
      var (b', a) := Decide(b, rs[0].now, rs[0].limit, rs[0].weight);
      (if a.allowed && from <= rs[0].now < to then rs[0].weight else 0) + AdmittedWeight(b', rs[1..], from, to)
  }

  /** No request of the run comes with a limit above `cap`. */
  predicate Limited(rs: seq<Request>, cap: int) {
    forall i :: 0 <= i < |rs| ==> rs[i].limit <= cap
  }

  /** One request more at the end of a run. */
  lemma {:induction false} AfterSnoc(b: State, rs: seq<Request>, r: Request)
    ensures After(b, rs + [r]) == Decide(After(b, rs), r.now, r.limit, r.weight).0
    decreases |rs|
  {
    if rs == [] {
      assert [r][1..] == [] && rs + [r] == [r];
    } else {
      AfterSnoc(Decide(b, rs[0].now, rs[0].limit, rs[0].weight).0, rs[1..], r);
      assert (rs + [r])[1..] == rs[1..] + [r];
    }
  }

  // ---------------------------------------------------------------- bursts

  function Potential(b: State): real {
    b.burstTokens - BURST_LIMIT as real * b.lastBurst
  }

  /**
    In any timestamp order, admissions are paid for out of the potential
    `burstTokens - 10 * lastBurst`, which nothing ever refills.
   */
  lemma {:induction false} PotentialPaysForAdmissions(b: State, rs: seq<Request>)
    ensures Potential(After(b, rs)) + AdmittedEver(b, rs) as real <= Potential(b)
    decreases |rs|
  {
    if rs != [] {
      var r := rs[0];
      var (b', a) := Decide(b, r.now, r.limit, r.weight);
      assert Potential(b') + (if a.allowed then 1.0 else 0.0) <= Potential(b);
      PotentialPaysForAdmissions(b', rs[1..]);
    }
  }

  lemma {:induction false} TokensStayInRange(b: State, rs: seq<Request>)
    requires 0.0 <= b.burstTokens <= BURST_LIMIT as real && Ordered(b.lastBurst, rs)
    ensures 0.0 <= After(b, rs).burstTokens <= BURST_LIMIT as real
    decreases |rs|
  {
    if rs != [] {
      TokensStayInRange(Decide(b, rs[0].now, rs[0].limit, rs[0].weight).0, rs[1..]);
    }
  }

  /** What the bucket can still admit in `[from, to]`. */
  function BurstAllowance(b: State, from: real, to: real): real {
    if b.lastBurst > to then 0.0
    else
      var start := if from < b.lastBurst then b.lastBurst else from;
      Refill(b, start) + BURST_LIMIT as real * (to - start)
  }

  lemma {:induction false} BurstAllowanceSuffices(b: State, rs: seq<Request>, from: real, to: real)
    requires 0.0 <= b.burstTokens <= BURST_LIMIT as real && Ordered(b.lastBurst, rs) && from <= to
    ensures Admitted(b, rs, from, to) as real <= BurstAllowance(b, from, to)
    decreases |rs|
  {
    if rs != [] {
      BurstAllowanceSuffices(Decide(b, rs[0].now, rs[0].limit, rs[0].weight).0, rs[1..], from, to);
    }
  }

  /** Under a monotone clock a bucket admits at most `10 + 10 * (to - from)` requests in `[from, to]`. */
  lemma BurstBound(b: State, rs: seq<Request>, from: real, to: real)
    requires 0.0 <= b.burstTokens <= BURST_LIMIT as real && Ordered(b.lastBurst, rs) && from <= to
    ensures Admitted(b, rs, from, to) as real <= BURST_LIMIT as real + BURST_LIMIT as real * (to - from)
  {
    BurstAllowanceSuffices(b, rs, from, to);
  }

  // ---------------------------------------------------------------- sustained load

  /** The weighted count exceeds no cap on the limits, however the limit moves, unless it did so before. */
  lemma {:induction false} CountStaysInRange(b: State, rs: seq<Request>, cap: int)
    requires 0 <= b.weightedCount && Limited(rs, cap)
    ensures 0 <= After(b, rs).weightedCount <= if b.weightedCount > cap then b.weightedCount else cap
    decreases |rs|
  {
    if rs != [] {
      assert rs[0].limit <= cap;
      CountStaysInRange(Decide(b, rs[0].now, rs[0].limit, rs[0].weight).0, rs[1..], cap);
    }
  }

  /** What is left of the window under a cap. */
  function Room(b: State, cap: nat): nat {
    if b.weightedCount > cap || b.weightedCount < 0 then 0 else cap - b.weightedCount
  }

  /**
    What the bucket can still admit, from time `t` on, in the minute from `from`: at most two
    windows touch it.
   */
  function WeightAllowance(b: State, cap: nat, t: real, from: real): nat {
    if b.windowStart >= from + MINUTE then 0
    else if b.windowStart >= from then Room(b, cap)
    else if t >= from then Room(b, cap) + cap
    else 2 * cap
  }

  lemma {:induction false} WeightAllowanceSuffices(b: State, rs: seq<Request>, cap: nat, t: real, from: real)
    requires 0 <= b.weightedCount && b.windowStart <= t && Ordered(t, rs) && Limited(rs, cap)
    ensures AdmittedWeight(b, rs, from, from + MINUTE) <= WeightAllowance(b, cap, t, from)
    decreases |rs|
  {
    if rs != [] {
      var b' := Decide(b, rs[0].now, rs[0].limit, rs[0].weight).0;
      assert rs[0].limit <= cap;
      WeightAllowanceSuffices(b', rs[1..], cap, rs[0].now, from);
    }
  }

  /**
    Under a monotone clock and limits up to `cap`, a bucket admits a weight of at most twice the cap
    in any minute: 240 in general, 60 while the load is critical.
   */
  lemma SustainedBound(b: State, rs: seq<Request>, cap: nat, t: real, from: real)
    requires 0 <= b.weightedCount && b.windowStart <= t && Ordered(t, rs) && Limited(rs, cap)
    ensures AdmittedWeight(b, rs, from, from + 60.0) <= 2 * cap
  {
    WeightAllowanceSuffices(b, rs, cap, t, from);
  }

  /** And in the minute of the present window no more than what is left of the cap. */
  lemma WindowBound(b: State, rs: seq<Request>, cap: nat, t: real)
    requires 0 <= b.weightedCount && b.windowStart <= t && Ordered(t, rs) && Limited(rs, cap)
    ensures AdmittedWeight(b, rs, b.windowStart, b.windowStart + 60.0) <=
            if b.weightedCount >= cap then 0 else cap - b.weightedCount
  {
    WeightAllowanceSuffices(b, rs, cap, t, b.windowStart);
  }

  // ---------------------------------------------------------------- the bounds are reached

  /** `n` requests of no weight at `now`, and then the rest. */
  function AtOnce(now: real, n: nat, rest: seq<Request>): seq<Request>
    decreases n
  {
    if n == 0 then rest else [Request(now, SUSTAINED_LIMIT, 0)] + AtOnce(now, n - 1, rest)
  }

  lemma {:induction false} AtOncePasses(b: State, n: nat, rest: seq<Request>, from: real, to: real)
    requires b.burstTokens == n as real <= BURST_LIMIT as real && b.lastSeen == b.lastBurst
    requires from <= b.lastBurst <= to && Ordered(b.lastBurst, rest)
    ensures Ordered(b.lastBurst, AtOnce(b.lastBurst, n, rest))
    ensures Admitted(b, AtOnce(b.lastBurst, n, rest), from, to) == n + Admitted(b.(burstTokens := 0.0), rest, from, to)
    decreases n
  {
    if n > 0 {
      AtOncePasses(b.(burstTokens := (n - 1) as real), n - 1, rest, from, to);
      assert AtOnce(b.lastBurst, n, rest)[1..] == AtOnce(b.lastBurst, n - 1, rest);
    }
  }

  /** `n` requests, one every tenth of a second after `t`, and then the rest. */
  function Spaced(t: real, n: nat, weight: nat, rest: seq<Request>): seq<Request>
    decreases n
  {
    if n == 0 then rest else [Request(t + 0.1, SUSTAINED_LIMIT, weight)] + Spaced(t + 0.1, n - 1, weight, rest)
  }

  /** The bucket after one of them. */
  function AfterOne(b: State, weight: nat): State {
    var t := b.lastBurst + 0.1;
    b.(lastBurst := t, lastSeen := t, weightedCount := b.weightedCount + weight)
  }

  function AfterSpaced(b: State, n: nat, weight: nat): State
    decreases n
  {
    if n == 0 then b else AfterSpaced(AfterOne(b, weight), n - 1, weight)
  }

  /** There are the tokens for a request every tenth of a second, and the weight until `end`. */
  predicate Lasts(b: State, n: nat, weight: nat, end: real) {
    && 0.0 <= b.burstTokens <= BURST_LIMIT as real - 1.0
    && end == b.lastBurst + n as real / 10.0
    && (weight == 0 ||
        (weight == 5 && b.weightedCount + 5 * n <= SUSTAINED_LIMIT && end < b.windowStart + MINUTE))
  }

  lemma {:induction false} OnePasses(b: State, n: nat, weight: nat, end: real)
    requires Lasts(b, n, weight, end) && n > 0
    ensures var (b', a) := Decide(b, b.lastBurst + 0.1, SUSTAINED_LIMIT, weight);
            b' == AfterOne(b, weight) && a.allowed
    ensures Lasts(AfterOne(b, weight), n - 1, weight, end) && b.lastBurst + 0.1 <= end
  {
  }

  lemma {:induction false} SpacedCons(b: State, n: nat, weight: nat, rest: seq<Request>, from: real, to: real)
    requires n > 0 && from <= b.lastBurst && b.lastBurst + 0.1 <= to
    requires var (b', a) := Decide(b, b.lastBurst + 0.1, SUSTAINED_LIMIT, weight);
             b' == AfterOne(b, weight) && a.allowed
    ensures var (rs, rs') := (Spaced(b.lastBurst, n, weight, rest), Spaced(b.lastBurst + 0.1, n - 1, weight, rest));
            && (Ordered(b.lastBurst + 0.1, rs') ==> Ordered(b.lastBurst, rs))
            && Admitted(b, rs, from, to) == 1 + Admitted(AfterOne(b, weight), rs', from, to)
            && (b.lastBurst + 0.1 < to ==>
                  AdmittedWeight(b, rs, from, to) == weight + AdmittedWeight(AfterOne(b, weight), rs', from, to))
  {
    assert Spaced(b.lastBurst, n, weight, rest)[1..] == Spaced(b.lastBurst + 0.1, n - 1, weight, rest);
  }

  /** A request every tenth of a second spends what comes back. */
  lemma {:induction false} SpacedPass(
    b: State, n: nat, weight: nat, end: real, rest: seq<Request>, from: real, to: real)
    requires Lasts(b, n, weight, end) && from <= b.lastBurst && end <= to && Ordered(end, rest)
    ensures Ordered(b.lastBurst, Spaced(b.lastBurst, n, weight, rest))
    ensures Admitted(b, Spaced(b.lastBurst, n, weight, rest), from, to) ==
            n + Admitted(AfterSpaced(b, n, weight), rest, from, to)
    ensures end < to && weight == 5 ==>
              AdmittedWeight(b, Spaced(b.lastBurst, n, weight, rest), from, to) ==
              5 * n + AdmittedWeight(AfterSpaced(b, n, weight), rest, from, to)
    decreases n
  {
    if n > 0 {
      OnePasses(b, n, weight, end);
      SpacedPass(AfterOne(b, weight), n - 1, weight, end, rest, from, to);
      SpacedCons(b, n, weight, rest, from, to);
    }
  }

  /** The burst limit at once and then `n` more, as they come back. */
  lemma FullBurst(b: State, burst: nat, n: nat, end: real) returns (rs: seq<Request>)
    requires b.burstTokens == burst as real && burst == BURST_LIMIT && b.lastSeen == b.lastBurst
    requires end == b.lastBurst + n as real / 10.0
    ensures Ordered(b.lastBurst, rs) && Admitted(b, rs, b.lastBurst, end) == burst + n
  {
    var b' := b.(burstTokens := 0.0);
    SpacedPass(b', n, 0, end, [], b.lastBurst, end);
    assert Admitted(AfterSpaced(b', n, 0), [], b.lastBurst, end) == 0;
    rs := AtOnce(b.lastBurst, burst, Spaced(b.lastBurst, n, 0, []));
    AtOncePasses(b, burst, Spaced(b.lastBurst, n, 0, []), b.lastBurst, end);
  }

  /** For every tenth of a second, as many requests as the bound allows can pass: 20 within one second. */
  lemma BurstBoundIsReached(n: nat)
    ensures exists rs :: Ordered(0.0, rs) && Admitted(NewState(0.0), rs, 0.0, n as real / 10.0) == BURST_LIMIT + n
  {
    var rs := FullBurst(NewState(0.0), BURST_LIMIT, n, n as real / 10.0);
  }

  lemma {:induction false} AfterSpacedIs(b: State, n: nat, weight: nat)
    requires b.lastSeen == b.lastBurst && (weight == 0 || weight == 5)
    ensures var t := b.lastBurst + n as real / 10.0;
            AfterSpaced(b, n, weight) == b.(lastBurst := t, lastSeen := t,
              weightedCount := b.weightedCount + if weight == 5 then 5 * n else 0)
    decreases n
  {
    if n > 0 {
      AfterSpacedIs(AfterOne(b, weight), n - 1, weight);
    }
  }

  /** A request of weight 5 and `n` more, one every tenth of a second, within a window that has counted nothing. */
  lemma {:induction false} LoadWindow(b: State, now: real, n: nat, rest: seq<Request>, from: real, to: real)
    returns (rs: seq<Request>, b': State)
    requires 5 * (n + 1) <= SUSTAINED_LIMIT
    requires Refill(b, now) == BURST_LIMIT as real && b.lastBurst <= now
    requires from <= now && now + n as real / 10.0 < to
    requires now >= b.windowStart + MINUTE || (b.weightedCount == 0 && now + n as real / 10.0 < b.windowStart + MINUTE)
    requires Ordered(now + n as real / 10.0, rest)
    ensures var (end, start) := (now + n as real / 10.0, if now >= b.windowStart + MINUTE then now else b.windowStart);
            b' == State(9.0, end, 5 * (n + 1), start, end)
    ensures Ordered(now, rs) && AdmittedWeight(b, rs, from, to) == 5 * (n + 1) + AdmittedWeight(b', rest, from, to)
  {
    var next := Decide(b, now, SUSTAINED_LIMIT, 5).0;
    var more := Spaced(now, n, 5, rest);
    SpacedPass(next, n, 5, now + n as real / 10.0, rest, from, to);
    AfterSpacedIs(next, n, 5);
    b' := AfterSpaced(next, n, 5);
    rs := [Request(now, SUSTAINED_LIMIT, 5)] + more;
    assert rs[1..] == more;
  }

  /** One load late in a window and the same early in the next. */
  lemma TwoLoads(n: nat) returns (rs: seq<Request>)
    requires 5 * (n + 1) <= SUSTAINED_LIMIT
    ensures Ordered(55.0, rs) && AdmittedWeight(NewState(0.0), rs, 55.0, 115.0) == 2 * (5 * (n + 1))
  {
    var end := 55.0 + n as real / 10.0;
    var early, last := LoadWindow(State(9.0, end, 5 * (n + 1), 0.0, end), 60.0, n, [], 55.0, 115.0);
    assert AdmittedWeight(last, [], 55.0, 115.0) == 0;
    EarlierIsOrdered(end, 60.0, early);
    var b: State;
    rs, b := LoadWindow(NewState(0.0), 55.0, n, early, 55.0, 115.0);
  }

  lemma EarlierIsOrdered(t: real, t': real, rs: seq<Request>)
    requires t <= t' && Ordered(t', rs)
    ensures Ordered(t, rs)
  {
  }

  /** A weight of 240 can pass in one minute. */
  lemma SustainedBoundIsReached()
    ensures exists rs :: Ordered(55.0, rs) &&
              AdmittedWeight(NewState(0.0), rs, 55.0, 55.0 + MINUTE) == 2 * SUSTAINED_LIMIT
  {
    var rs := TwoLoads(SUSTAINED_LIMIT / 5 - 1);
  }

  // ---------------------------------------------------------------- what the answers promise

  /**
    `remaining` is exact: until the window is reset, under the same limit and with a burst token
    left, a weighted request passes exactly when its weight is at most what remained.
   */
  lemma {:induction false} RemainingIsExact(b: State, now: real, limit: int, weight: nat, later: real, w: nat)
    requires Refill(b, now) >= 1.0 && w >= 1
    requires var (b', a) := Decide(b, now, limit, weight); now <= later < a.resetTime && Refill(b', later) >= 1.0
    ensures var (b', a) := Decide(b, now, limit, weight);
            Decide(b', later, limit, w).1.allowed <==> w <= a.remaining
  {
  }

  /**
    After a refused burst a token comes back less than a millisecond after `resetTime`, never
    before it, and at `resetTime` itself exactly when the wait is a whole number of milliseconds.
   */
  lemma {:induction false} BurstResetWithinMillisecond(b: State, now: real, limit: int, weight: nat, later: real)
    requires Refill(b, now) < 1.0 && now <= later
    ensures var (b', a) := Decide(b, now, limit, weight);
            && !a.allowed && now <= a.resetTime
            && (later < a.resetTime ==> Refill(b', later) < 1.0)
            && (later >= a.resetTime + 0.001 ==> Refill(b', later) >= 1.0)
            && var wait := MillisecondsToToken(Refill(b, now));
               Refill(b', a.resetTime) >= 1.0 <==> wait == wait.Floor as real
  {
  }

  /** So the announced time can be the present one, with no token there. */
  lemma {:induction false} BurstResetCanBeEarly(limit: int, weight: nat)
    ensures var b := State(0.9995, 0.0, 0, 0.0, 0.0);
            var (b', a) := Decide(b, 0.0, limit, weight);
            !a.allowed && a.resetTime == 0.0 && !Decide(b', a.resetTime, limit, weight).1.allowed
  {
    assert MillisecondsToToken(0.9995) == 0.05;
  }

  /** From `resetTime` on, a weighted request within the whole limit passes if a token is left. */
  lemma {:induction false} WindowResetIsKept(b: State, now: real, limit: int, weight: nat, later: real, w: nat)
    requires Refill(b, now) >= 1.0 && 1 <= w <= limit
    requires var (b', a) := Decide(b, now, limit, weight); a.resetTime <= later && Refill(b', later) >= 1.0
    ensures Decide(Decide(b, now, limit, weight).0, later, limit, w).1.allowed
  {
  }
}
