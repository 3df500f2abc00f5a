/**
  What the limiter of pkg/mcp/ratelimit.go tells one client depends on the requests of that client
  alone: they are decided as a run of one bucket.
 */
module ClientRuns {
  import opened Bytes
  import RateLimit
  import opened RateLimiter
  import RateDecisions

  /** The requests of `ip`, each with the limit of its load. */
  function RequestsOf(es: seq<Event>, ip: bytes): seq<RateLimit.Request> {
    if es == [] then []
    else
      (if es[0].Allow? && es[0].ip == ip
       then [RateLimit.Request(es[0].now, RateLimit.CurrentLimit(es[0].active), es[0].weight)] else [])
      + RequestsOf(es[1..], ip)
  }

  /** The answers to them, out of all answers. */
  function AnswersTo(es: seq<Event>, answers: seq<RateLimit.Answer>, ip: bytes): seq<RateLimit.Answer>
    decreases |es|
  {
    if es == [] || answers == [] then []
    else if es[0].Clean? then AnswersTo(es[1..], answers, ip)
    else (if es[0].ip == ip then [answers[0]] else []) + AnswersTo(es[1..], answers[1..], ip)
  }

  /** The answers of a run of one bucket. */
  function BucketAnswers(b: RateLimit.State, rs: seq<RateLimit.Request>): seq<RateLimit.Answer>
    decreases |rs|
  {
    if rs == [] then []
    else
      var (b', a) := RateLimit.Decide(b, rs[0].now, rs[0].limit, rs[0].weight);
      [a] + BucketAnswers(b', rs[1..])
  }

  predicate NoCleanup(es: seq<Event>) {
    forall k :: 0 <= k < |es| ==> es[k].Allow?
  }

  /** The bucket the next request of `ip` meets. */
  function BucketFor(m: Table, ip: bytes, rs: seq<RateLimit.Request>): RateLimit.State
    requires rs != []
  {
    if ip in m then m[ip] else RateLimit.NewState(rs[0].now)
  }

  lemma ConsCases(
    hash: Hash, m: Table, es: seq<Event>, ip: bytes, rest: seq<RateLimit.Request>, more: seq<RateLimit.Answer>)
    requires es != [] && es[0].Allow?
    requires rest == RequestsOf(es[1..], ip) && more == Answers(hash, TableAfter(hash, m, es[0]), es[1..])
    ensures var r := RateLimit.Request(es[0].now, RateLimit.CurrentLimit(es[0].active), es[0].weight);
            RequestsOf(es, ip) == if es[0].ip == ip then [r] + rest else rest
    ensures var own := AnswersTo(es[1..], more, ip);
            AnswersTo(es, Answers(hash, m, es), ip) == if es[0].ip == ip then [AnswerTo(m, es[0])] + own else own
  {
    AnswersCons(hash, m, es);
    assert ([AnswerTo(m, es[0])] + more)[1..] == more;
    assert [] + rest == rest && [] + AnswersTo(es[1..], more, ip) == AnswersTo(es[1..], more, ip);
  }

  lemma {:induction false} BucketCons(b: RateLimit.State, r: RateLimit.Request, rest: seq<RateLimit.Request>)
    ensures var (b', a) := RateLimit.Decide(b, r.now, r.limit, r.weight);
            BucketAnswers(b, [r] + rest) == [a] + BucketAnswers(b', rest)
  {
    assert ([r] + rest)[1..] == rest;
  }

  /** In every run without cleanups, the answers to a client are those of its own bucket to its own requests. */
  lemma {:induction false} ClientIsARun(hash: Hash, m: Table, es: seq<Event>, ip: bytes)
    requires NoCleanup(es)
    ensures var rs := RequestsOf(es, ip);
            AnswersTo(es, Answers(hash, m, es), ip) == if rs == [] then [] else BucketAnswers(BucketFor(m, ip, rs), rs)
    decreases |es|
  {
    if es != [] {
      var m', rest := TableAfter(hash, m, es[0]), RequestsOf(es[1..], ip);
      ConsCases(hash, m, es, ip, rest, Answers(hash, m', es[1..]));
      ClientIsARun(hash, m', es[1..], ip);
      if es[0].ip == ip {
        var r := RateLimit.Request(es[0].now, RateLimit.CurrentLimit(es[0].active), es[0].weight);
        BucketCons(BucketFor(m, ip, [r] + rest), r, rest);
      }
    }
  }

  lemma {:induction false} BucketAnswerAt(b: RateLimit.State, rs: seq<RateLimit.Request>, n: nat)
    requires n < |rs|
    ensures |BucketAnswers(b, rs)| == |rs|
    ensures BucketAnswers(b, rs)[n] ==
            RateLimit.Decide(RateLimit.After(b, rs[..n]), rs[n].now, rs[n].limit, rs[n].weight).1
    decreases |rs|
  {
    var b' := RateLimit.Decide(b, rs[0].now, rs[0].limit, rs[0].weight).0;
    if n > 0 {
      BucketAnswerAt(b', rs[1..], n - 1);
      assert rs[..n][0] == rs[0] && rs[..n][1..] == rs[1..][..n - 1];
    } else {
      assert rs[..0] == [];
      if |rs| > 1 { BucketAnswerAt(b', rs[1..], 0); }
    }
  }

  /**
    So in every run of a new limiter without cleanups, request number `n` of a client is answered
    as `RateDecisions` says for its requests alone.
   */
  lemma ClientDecisions(hash: Hash, es: seq<Event>, ip: bytes, n: nat)
    requires NoCleanup(es) && n < |RequestsOf(es, ip)|
    ensures var rs := RequestsOf(es, ip);
            && n < |AnswersTo(es, Answers(hash, map[], es), ip)|
            && AnswersTo(es, Answers(hash, map[], es), ip)[n] == RateDecisions.AnswerAt(rs[0].now, rs, n)
  {
    var rs := RequestsOf(es, ip);
    ClientIsARun(hash, map[], es, ip);
    BucketAnswerAt(RateLimit.NewState(rs[0].now), rs, n);
  }

  /** With cleanups that no request observes, it is the same. */
  lemma {:induction false} RequestsWithoutCleanup(es: seq<Event>, ip: bytes)
    ensures RequestsOf(WithoutCleanup(es), ip) == RequestsOf(es, ip) && NoCleanup(WithoutCleanup(es))
    decreases |es|
  {
    if es != [] {
      RequestsWithoutCleanup(es[1..], ip);
      WithoutCleanupCons(es);
      assert [] + RequestsOf(es[1..], ip) == RequestsOf(es[1..], ip);
      assert es[0].Allow? ==> ([es[0]] + WithoutCleanup(es[1..]))[1..] == WithoutCleanup(es[1..]);
    }
  }

  lemma {:induction false} UnobservedDecisions(hash: Hash, es: seq<Event>, ip: bytes, t: real, n: nat)
    requires Ordered(t, es) && (forall k: nat :: !ObservesCleanup(hash, es, k)) && n < |RequestsOf(es, ip)|
    ensures var (rs, es') := (RequestsOf(es, ip), WithoutCleanup(es));
            && n < |AnswersTo(es', Answers(hash, map[], es), ip)|
            && AnswersTo(es', Answers(hash, map[], es), ip)[n] == RateDecisions.AnswerAt(rs[0].now, rs, n)
  {
    CleanupIsUnobservableExactly(hash, t, es);
    RequestsWithoutCleanup(es, ip);
    ClientDecisions(hash, WithoutCleanup(es), ip, n);
  }
}
