/**
  What one client can get out of the whole limiter of pkg/mcp/ratelimit.go, in any run of requests
  of many clients, loads, weights and cleanups.
 */
module ClientBounds {
  import opened Bytes
  import RateLimit
  import opened RateLimiter

  // ---------------------------------------------------------------- counting answers

  /** What admitting a request counts for. */
  datatype Measure = Requests | Weight

  function Counts(what: Measure, weight: nat): nat {
    if what.Requests? then 1 else weight
  }

  /** Requests are counted in `[from, to]`, weight in `[from, to)`. */
  predicate Within(what: Measure, now: real, from: real, to: real) {
    from <= now && (now < to || (what.Requests? && now == to))
  }

  /** The admitted requests of `ip`, counted over the events and their answers. */
  function Admitted(what: Measure, es: seq<Event>, answers: seq<RateLimit.Answer>, ip: bytes, from: real, to: real): nat
    decreases |es|
  {
    if es == [] then 0
    else if es[0].Clean? then Admitted(what, es[1..], answers, ip, from, to)
    else if answers == [] then 0
    else
      var e := es[0];
      var counts := answers[0].allowed && e.ip == ip && Within(what, e.now, from, to);
      (if counts then Counts(what, e.weight) else 0) + Admitted(what, es[1..], answers[1..], ip, from, to)
  }

  /** What one event adds to the count. */
  function Adds(what: Measure, m: Table, e: Event, ip: bytes, from: real, to: real): nat {
    if e.Allow? && AnswerTo(m, e).allowed && e.ip == ip
       && Within(what, e.now, from, to)
    then Counts(what, e.weight) else 0
  }

  lemma AdmittedCons(what: Measure, hash: Hash, m: Table, es: seq<Event>, ip: bytes, from: real, to: real)
    requires es != []
    ensures Admitted(what, es, Answers(hash, m, es), ip, from, to) ==
            Adds(what, m, es[0], ip, from, to)
            + Admitted(what, es[1..], Answers(hash, TableAfter(hash, m, es[0]), es[1..]), ip, from, to)
  {
    AnswersCons(hash, m, es);
    if es[0].Allow? {
      var a := AnswerTo(m, es[0]);
      var more := Answers(hash, TableAfter(hash, m, es[0]), es[1..]);
      assert ([a] + more)[1..] == more;
    }
  }

  // ---------------------------------------------------------------- what a client has left

  /** The bucket of the client, or the one it would get. */
  function BucketOf(m: Table, ip: bytes, t: real): RateLimit.State {
    if ip in m then m[ip] else RateLimit.NewState(t)
  }

  predicate Known(m: Table, ip: bytes, t: real) {
    Sane(BucketOf(m, ip, t), t) && 0 <= BucketOf(m, ip, t).weightedCount
  }

  /** The load lets no request have a limit above `cap`. */
  predicate Capped(e: Event, cap: nat) {
    e.Allow? ==> RateLimit.CurrentLimit(e.active) <= cap
  }

  lemma EventKeepsKnown(hash: Hash, m: Table, e: Event, ip: bytes, t: real)
    requires Known(m, ip, t) && (e.Allow? ==> t <= e.now)
    ensures Known(TableAfter(hash, m, e), ip, Later(t, e.now))
  {
  }

  /** No request of any client lets a client have more burst requests, and no loss of a stale bucket does. */
  lemma EventSpendsBurst(hash: Hash, m: Table, e: Event, ip: bytes, t: real, from: real, to: real)
    requires Known(m, ip, t) && (e.Allow? ==> t <= e.now) && from <= to
    ensures var b' := BucketOf(TableAfter(hash, m, e), ip, Later(t, e.now));
            Adds(Requests, m, e, ip, from, to) as real + RateLimit.BurstAllowance(b', from, to)
              <= RateLimit.BurstAllowance(BucketOf(m, ip, t), from, to)
  {
  }

  /** Nor more weight. */
  lemma EventSpendsWeight(hash: Hash, m: Table, e: Event, ip: bytes, cap: nat, t: real, from: real)
    requires Known(m, ip, t) && (e.Allow? ==> t <= e.now) && Capped(e, cap)
    ensures var b' := BucketOf(TableAfter(hash, m, e), ip, Later(t, e.now));
            Adds(Weight, m, e, ip, from, from + RateLimit.MINUTE)
              + RateLimit.WeightAllowance(b', cap, Later(t, e.now), from)
              <= RateLimit.WeightAllowance(BucketOf(m, ip, t), cap, t, from)
  {
  }

  lemma {:induction false} BurstAllowanceSuffices(
    hash: Hash, m: Table, es: seq<Event>, ip: bytes, t: real, from: real, to: real)
    requires Known(m, ip, t) && Ordered(t, es) && from <= to
    ensures Admitted(Requests, es, Answers(hash, m, es), ip, from, to) as real
              <= RateLimit.BurstAllowance(BucketOf(m, ip, t), from, to)
    decreases |es|
  {
    if es != [] {
      AdmittedCons(Requests, hash, m, es, ip, from, to);
      EventKeepsKnown(hash, m, es[0], ip, t);
      EventSpendsBurst(hash, m, es[0], ip, t, from, to);
      BurstAllowanceSuffices(hash, TableAfter(hash, m, es[0]), es[1..], ip, Later(t, es[0].now), from, to);
    }
  }

  lemma {:induction false} WeightAllowanceSuffices(
    hash: Hash, m: Table, es: seq<Event>, ip: bytes, cap: nat, t: real, from: real)
    requires Known(m, ip, t) && Ordered(t, es) && forall k :: 0 <= k < |es| ==> Capped(es[k], cap)
    ensures Admitted(Weight, es, Answers(hash, m, es), ip, from, from + RateLimit.MINUTE)
              <= RateLimit.WeightAllowance(BucketOf(m, ip, t), cap, t, from)
    decreases |es|
  {
    if es != [] {
      AdmittedCons(Weight, hash, m, es, ip, from, from + RateLimit.MINUTE);
      EventKeepsKnown(hash, m, es[0], ip, t);
      EventSpendsWeight(hash, m, es[0], ip, cap, t, from);
      WeightAllowanceSuffices(hash, TableAfter(hash, m, es[0]), es[1..], ip, cap, Later(t, es[0].now), from);
    }
  }

  /**
    In every run of a new limiter with a monotone clock, whatever the other clients, the load and
    the cleanups do, a client gets at most `10 + 10 * (to - from)` requests in `[from, to]`, and in
    any minute a weight of at most twice the largest limit of the run.
   */
  lemma EveryClientIsBounded(hash: Hash, es: seq<Event>, ip: bytes, cap: nat, t: real, from: real, to: real)
    requires Ordered(t, es) && from <= to && forall k :: 0 <= k < |es| ==> Capped(es[k], cap)
    ensures var answers := Answers(hash, map[], es);
            && Admitted(Requests, es, answers, ip, from, to) as real <= 10.0 + 10.0 * (to - from)
            && Admitted(Weight, es, answers, ip, from, from + 60.0) <= 2 * cap
  {
    BurstAllowanceSuffices(hash, map[], es, ip, t, from, to);
    WeightAllowanceSuffices(hash, map[], es, ip, cap, t, from);
  }

  /** That is 240 in every run, and 60 in one with more than 80 active requests throughout. */
  lemma WeightInAnyMinute(hash: Hash, es: seq<Event>, ip: bytes, t: real, from: real)
    requires Ordered(t, es)
    ensures Admitted(Weight, es, Answers(hash, map[], es), ip, from, from + 60.0) <=
            if forall k :: 0 <= k < |es| && es[k].Allow? ==> es[k].active > 80 then 60
            else if forall k :: 0 <= k < |es| && es[k].Allow? ==> es[k].active > 50 then 120
            else 240
  {
    var cap := if forall k :: 0 <= k < |es| && es[k].Allow? ==> es[k].active > 80 then 30
               else if forall k :: 0 <= k < |es| && es[k].Allow? ==> es[k].active > 50 then 60
               else 120;
    EveryClientIsBounded(hash, es, ip, cap, t, from, from);
  }
}
