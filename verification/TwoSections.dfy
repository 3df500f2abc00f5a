/**
  The two critical sections of `allow` in pkg/mcp/ratelimit.go as steps of their own: a request
  looks up its bucket under the lock of the shard and is decided later under the lock of the
  bucket.  A cleanup may come between, and then one address has several buckets in use.
 */
module TwoSections {
  import opened Bytes
  import RateLimit
  import opened RateLimiter
  import opened ClientBounds

  /** A bucket in memory, whether the table still has it or not. */
  datatype Object = Object(ip: bytes, born: real, state: RateLimit.State)

  /** What a request carries from its lookup to its decision. */
  datatype Lookup = Lookup(bucket: nat, request: RateLimit.Request)

  datatype Decision = Decision(bucket: nat, request: RateLimit.Request, allowed: bool)

  datatype World = World(
    buckets: seq<Object>,
    table: map<bytes, nat>,
    lookups: seq<Lookup>,
    decided: set<nat>,
    log: seq<Decision>)

  datatype Section =
    | Look(ip: bytes, now: real, active: int, weight: nat)
    | Decide(lookup: nat)
    | CleanUp(shard: Shard, now: real)

  const START := World([], map[], [], {}, [])

  predicate Valid(w: World) {
    && (forall ip :: ip in w.table ==> w.table[ip] < |w.buckets| && w.buckets[w.table[ip]].ip == ip)
    && (forall k :: 0 <= k < |w.lookups| ==>
          w.lookups[k].bucket < |w.buckets| && w.lookups[k].request.limit <= RateLimit.SUSTAINED_LIMIT)
    && (forall k :: 0 <= k < |w.log| ==>
          w.log[k].bucket < |w.buckets| && w.log[k].request.limit <= RateLimit.SUSTAINED_LIMIT)
  }

  predicate Enabled(w: World, e: Section) {
    e.Decide? ==> e.lookup < |w.lookups| && e.lookup !in w.decided
  }

  function AddLookup(w: World, bucket: nat, request: RateLimit.Request): World {
    w.(lookups := w.lookups + [Lookup(bucket, request)])
  }

  /** One critical section. */
  function Step(hash: Hash, w: World, e: Section): World
    requires Valid(w) && Enabled(w, e)
  {
    match e
    case Look(ip, now, active, weight) =>
      var request := RateLimit.Request(now, RateLimit.CurrentLimit(active), weight);
      if ip in w.table then AddLookup(w, w.table[ip], request)
      else
        AddLookup(w.(buckets := w.buckets + [Object(ip, now, RateLimit.NewState(now))],
                     table := w.table[ip := |w.buckets|]), |w.buckets|, request)
    case Decide(k) =>
      var Lookup(i, r) := w.lookups[k];
      var (b, a) := RateLimit.Decide(w.buckets[i].state, r.now, r.limit, r.weight);
      w.(buckets := w.buckets[i := w.buckets[i].(state := b)],
         decided := w.decided + {k},
         log := w.log + [Decision(i, r, a.allowed)])
    case CleanUp(shard, now) =>
      w.(table := map ip | ip in w.table
           && !(ShardFor(hash, ip) == shard && Stale(w.buckets[w.table[ip]].state, now)) :: w.table[ip])
  }

  lemma StepKeepsValid(hash: Hash, w: World, e: Section)
    requires Valid(w) && Enabled(w, e)
    ensures Valid(Step(hash, w, e))
  {
  }

  /** `es` is a possible interleaving of critical sections. */
  predicate Possible(hash: Hash, es: seq<Section>)
    decreases |es|, 0
  {
    es == [] || (Possible(hash, es[..|es| - 1]) && Enabled(After(hash, es[..|es| - 1]), es[|es| - 1]))
  }

  function After(hash: Hash, es: seq<Section>): (w: World)
    requires Possible(hash, es)
    ensures Valid(w)
    decreases |es|, 1
  {
    if es == [] then START
    else
      var (before, e) := (After(hash, es[..|es| - 1]), es[|es| - 1]);
      StepKeepsValid(hash, before, e);
      Step(hash, before, e)
  }

  lemma Extend(hash: Hash, es: seq<Section>, e: Section) returns (longer: seq<Section>)
    requires Possible(hash, es) && Enabled(After(hash, es), e)
    ensures longer == es + [e] && Possible(hash, longer)
    ensures After(hash, longer) == Step(hash, After(hash, es), e)
  {
    longer := es + [e];
    assert longer[..|longer| - 1] == es;
  }

  // ---------------------------------------------------------------- one bucket

  /** The requests decided on bucket `i`, in the order of their decisions. */
  function RequestsOf(log: seq<Decision>, i: nat): seq<RateLimit.Request> {
    if log == [] then []
    else
      var (init, d) := (log[..|log| - 1], log[|log| - 1]);
      RequestsOf(init, i) + if d.bucket == i then [d.request] else []
  }

  /** What one decision counts for, when it is about one of the buckets `bs`. */
  function PassedBy(what: Measure, d: Decision, bs: set<nat>, from: real, to: real): nat {
    if d.allowed && d.bucket in bs && Within(what, d.request.now, from, to) then Counts(what, d.request.weight) else 0
  }

  /** The requests passed by the buckets `bs`, counted in an interval. */
  function Passed(what: Measure, log: seq<Decision>, bs: set<nat>, from: real, to: real): nat {
    if log == [] then 0
    else
      var (init, d) := (log[..|log| - 1], log[|log| - 1]);
      Passed(what, init, bs, from, to) + PassedBy(what, d, bs, from, to)
  }

  /** What the bucket theory counts of a run. */
  function Admits(what: Measure, b: RateLimit.State, rs: seq<RateLimit.Request>, from: real, to: real): nat {
    if what.Requests? then RateLimit.Admitted(b, rs, from, to) else RateLimit.AdmittedWeight(b, rs, from, to)
  }

  lemma {:induction false} AdmitsSnoc(
    what: Measure, b: RateLimit.State, rs: seq<RateLimit.Request>, r: RateLimit.Request, from: real, to: real)
    ensures var a := RateLimit.Decide(RateLimit.After(b, rs), r.now, r.limit, r.weight).1;
            Admits(what, b, rs + [r], from, to) == Admits(what, b, rs, from, to) +
              if a.allowed && Within(what, r.now, from, to) then Counts(what, r.weight) else 0
    decreases |rs|
  {
    if rs == [] {
      assert [r][1..] == [] && rs + [r] == [r];
      var b' := RateLimit.Decide(b, r.now, r.limit, r.weight).0;
      assert RateLimit.Admitted(b', [], from, to) == 0 && RateLimit.AdmittedWeight(b', [], from, to) == 0;
    } else {
      AdmitsSnoc(what, RateLimit.Decide(b, rs[0].now, rs[0].limit, rs[0].weight).0, rs[1..], r, from, to);
      assert (rs + [r])[1..] == rs[1..] + [r];
    }
  }

  /** The decisions on bucket `i` so far are a run of that bucket, from the moment it was created. */
  predicate IsRun(w: World, i: nat, what: Measure, from: real, to: real)
    requires i < |w.buckets|
  {
    var (b, rs) := (RateLimit.NewState(w.buckets[i].born), RequestsOf(w.log, i));
    && w.buckets[i].state == RateLimit.After(b, rs)
    && Passed(what, w.log, {i}, from, to) == Admits(what, b, rs, from, to)
  }

  lemma {:induction false} NoneOfNew(what: Measure, log: seq<Decision>, i: nat, from: real, to: real)
    requires forall k :: 0 <= k < |log| ==> log[k].bucket < i
    ensures RequestsOf(log, i) == [] && Passed(what, log, {i}, from, to) == 0
    decreases |log|
  {
    if log != [] { NoneOfNew(what, log[..|log| - 1], i, from, to); }
  }

  lemma LogSnoc(what: Measure, log: seq<Decision>, d: Decision, i: nat, bs: set<nat>, from: real, to: real)
    ensures RequestsOf(log + [d], i) == RequestsOf(log, i) + if d.bucket == i then [d.request] else []
    ensures Passed(what, log + [d], bs, from, to) == Passed(what, log, bs, from, to) + PassedBy(what, d, bs, from, to)
  {
    assert (log + [d])[..|log|] == log;
  }

  lemma StepKeepsRun(hash: Hash, w: World, e: Section, i: nat, what: Measure, from: real, to: real)
    requires Valid(w) && Enabled(w, e) && i < |Step(hash, w, e).buckets|
    requires i < |w.buckets| ==> IsRun(w, i, what, from, to)
    ensures IsRun(Step(hash, w, e), i, what, from, to)
  {
    if e.Decide? {
      var Lookup(j, r) := w.lookups[e.lookup];
      var b, rs := RateLimit.NewState(w.buckets[i].born), RequestsOf(w.log, i);
      LogSnoc(what, w.log, Step(hash, w, e).log[|w.log|], i, {i}, from, to);
      if i == j {
        RateLimit.AfterSnoc(b, rs, r);
        AdmitsSnoc(what, b, rs, r, from, to);
      } else {
        assert rs + [] == rs;
      }
    } else if i == |w.buckets| {
      NoneOfNew(what, w.log, i, from, to);
    }
  }

  /** In every interleaving, the decisions on every bucket are a run of that bucket. */
  lemma {:induction false} EveryBucketIsARun(
    hash: Hash, es: seq<Section>, i: nat, what: Measure, from: real, to: real)
    requires Possible(hash, es) && i < |After(hash, es).buckets|
    ensures IsRun(After(hash, es), i, what, from, to)
    decreases |es|
  {
    if es != [] {
      var init := es[..|es| - 1];
      if i < |After(hash, init).buckets| {
        EveryBucketIsARun(hash, init, i, what, from, to);
      }
      StepKeepsRun(hash, After(hash, init), es[|es| - 1], i, what, from, to);
    }
  }

  /** The decisions on bucket `i` came in the order of their timestamps. */
  predicate InOrder(w: World, i: nat)
    requires i < |w.buckets|
  {
    RateLimit.Ordered(w.buckets[i].born, RequestsOf(w.log, i))
  }

  lemma {:induction false} RequestsAreLimited(log: seq<Decision>, i: nat)
    requires forall k :: 0 <= k < |log| ==> log[k].request.limit <= RateLimit.SUSTAINED_LIMIT
    ensures RateLimit.Limited(RequestsOf(log, i), RateLimit.SUSTAINED_LIMIT)
    decreases |log|
  {
    if log != [] { RequestsAreLimited(log[..|log| - 1], i); }
  }

  /** What a bucket may pass in an interval: a number of requests, or a weight in a minute. */
  function Bound(what: Measure, from: real, to: real): real {
    if what.Requests? then 10.0 + 10.0 * (to - from) else 240.0
  }

  /** Each bucket keeps its bounds, whether it is still in the table or not. */
  lemma EveryBucketIsBounded(hash: Hash, es: seq<Section>, i: nat, what: Measure, from: real, to: real)
    requires Possible(hash, es) && i < |After(hash, es).buckets| && InOrder(After(hash, es), i)
    requires from <= to && (what.Weight? ==> to == from + RateLimit.MINUTE)
    ensures Passed(what, After(hash, es).log, {i}, from, to) as real <= Bound(what, from, to)
  {
    var w := After(hash, es);
    var b, rs := RateLimit.NewState(w.buckets[i].born), RequestsOf(w.log, i);
    EveryBucketIsARun(hash, es, i, what, from, to);
    if what.Requests? {
      RateLimit.BurstBound(b, rs, from, to);
    } else {
      RequestsAreLimited(w.log, i);
      RateLimit.SustainedBound(b, rs, RateLimit.SUSTAINED_LIMIT, w.buckets[i].born, from);
    }
  }

  // ---------------------------------------------------------------- one address

  function BucketsOf(w: World, ip: bytes): set<nat> {
    set i: nat | i < |w.buckets| && w.buckets[i].ip == ip
  }

  lemma {:induction false} PassedOneByOne(what: Measure, log: seq<Decision>, bs: set<nat>, i: nat, from: real, to: real)
    requires i in bs
    ensures Passed(what, log, bs, from, to) == Passed(what, log, bs - {i}, from, to) + Passed(what, log, {i}, from, to)
    decreases |log|
  {
    if log != [] { PassedOneByOne(what, log[..|log| - 1], bs, i, from, to); }
  }

  lemma {:induction false} PassedByNone(what: Measure, log: seq<Decision>, from: real, to: real)
    ensures Passed(what, log, {}, from, to) == 0
    decreases |log|
  {
    if log != [] { PassedByNone(what, log[..|log| - 1], from, to); }
  }

  /** `n` times `x`. */
  function Times(n: nat, x: real): real {
    if n == 0 then 0.0 else Times(n - 1, x) + x
  }

  lemma {:induction false} SumIsBounded(
    what: Measure, log: seq<Decision>, bs: set<nat>, from: real, to: real, bound: real)
    requires forall i :: i in bs ==> Passed(what, log, {i}, from, to) as real <= bound
    ensures Passed(what, log, bs, from, to) as real <= Times(|bs|, bound)
    decreases |bs|
  {
    if bs == {} {
      PassedByNone(what, log, from, to);
    } else {
      var i :| i in bs;
      PassedOneByOne(what, log, bs, i, from, to);
      SumIsBounded(what, log, bs - {i}, from, to, bound);
      assert |bs| == |bs - {i}| + 1;
    }
  }

  /**
    In every interleaving, an address gets at most as many times the bounds of a bucket as buckets
    were created for it.
   */
  lemma {:induction false} EveryAddressIsBounded(
    hash: Hash, es: seq<Section>, ip: bytes, what: Measure, from: real, to: real)
    requires Possible(hash, es) && forall i :: i in BucketsOf(After(hash, es), ip) ==> InOrder(After(hash, es), i)
    requires from <= to && (what.Weight? ==> to == from + RateLimit.MINUTE)
    ensures var (w, bs) := (After(hash, es), BucketsOf(After(hash, es), ip));
            Passed(what, w.log, bs, from, to) as real <= Times(|bs|, Bound(what, from, to))
  {
    var w := After(hash, es);
    var bs := BucketsOf(w, ip);
    forall i | i in bs
      ensures Passed(what, w.log, {i}, from, to) as real <= Bound(what, from, to)
    {
      EveryBucketIsBounded(hash, es, i, what, from, to);
    }
    SumIsBounded(what, w.log, bs, from, to, Bound(what, from, to));
  }

  // ---------------------------------------------------------------- two buckets for one address

  function Copies<T>(x: T, n: nat): seq<T> {
    seq(n, _ => x)
  }

  lemma CopiesSnoc<T>(s: seq<T>, x: T, n: nat)
    ensures s + Copies(x, n) + [x] == s + Copies(x, n + 1)
  {
  }

  /** A request without a weight, under the largest limit. */
  function Light(now: real): RateLimit.Request {
    RateLimit.Request(now, RateLimit.SUSTAINED_LIMIT, 0)
  }

  /** `n` more lookups of an address that the table has. */
  lemma {:induction false} ManyLooks(hash: Hash, es: seq<Section>, ip: bytes, now: real, n: nat)
    returns (longer: seq<Section>)
    requires Possible(hash, es) && ip in After(hash, es).table
    ensures Possible(hash, longer)
    ensures var w := After(hash, es);
            After(hash, longer) == w.(lookups := w.lookups + Copies(Lookup(w.table[ip], Light(now)), n))
    decreases n
  {
    var w := After(hash, es);
    if n == 0 {
      longer := es;
      assert w.lookups + Copies(Lookup(w.table[ip], Light(now)), 0) == w.lookups;
    } else {
      longer := ManyLooks(hash, es, ip, now, n - 1);
      longer := Extend(hash, longer, Look(ip, now, 0, 0));
      CopiesSnoc(w.lookups, Lookup(w.table[ip], Light(now)), n - 1);
    }
  }

  /** Lookups `k` to `k + n`, still to be decided, found bucket `i` for a request at `now`. */
  predicate Await(w: World, k: nat, n: nat, i: nat, now: real) {
    && k + n <= |w.lookups| && i < |w.buckets|
    && forall j :: k <= j < k + n ==> w.lookups[j] == Lookup(i, Light(now)) && j !in w.decided
  }

  /** `w'` is `w` after `n` of them were admitted. */
  predicate AllAdmitted(w: World, k: nat, n: nat, i: nat, now: real, w': World)
    requires i < |w.buckets|
  {
    && |w'.buckets| == |w.buckets| && w'.table == w.table && w'.lookups == w.lookups
    && (forall j :: 0 <= j < |w.buckets| ==> w'.buckets[j].ip == w.buckets[j].ip)
    && (forall j :: 0 <= j < |w.buckets| && j != i ==> w'.buckets[j] == w.buckets[j])
    && (forall j :: j in w'.decided ==> j in w.decided || k <= j < k + n)
    && w'.log == w.log + Copies(Decision(i, Light(now), true), n)
  }

  lemma DecideOne(hash: Hash, w: World, k: nat, i: nat, now: real, left: nat) returns (b: RateLimit.State)
    requires Valid(w) && Await(w, k, 1, i, now)
    requires RateLimit.Refill(w.buckets[i].state, now) == (left + 1) as real
    ensures RateLimit.Refill(b, now) == left as real
    ensures Step(hash, w, Decide(k)) ==
            w.(buckets := w.buckets[i := w.buckets[i].(state := b)],
               decided := w.decided + {k},
               log := w.log + [Decision(i, Light(now), true)])
  {
    b := RateLimit.Decide(w.buckets[i].state, now, RateLimit.SUSTAINED_LIMIT, 0).0;
    assert w.lookups[k] == Lookup(i, Light(now));
  }

  lemma OneMoreAdmitted(w: World, k: nat, n: nat, i: nat, now: real, w': World, b: RateLimit.State)
    requires i < |w.buckets| && AllAdmitted(w, k, n, i, now, w')
    ensures AllAdmitted(
              w, k, n + 1, i, now,
              w'.(buckets := w'.buckets[i := w'.buckets[i].(state := b)],
                  decided := w'.decided + {k + n},
                  log := w'.log + [Decision(i, Light(now), true)]))
  {
    CopiesSnoc(w.log, Decision(i, Light(now), true), n);
  }

  /** The lookups that are not among the `n` decided ones await their decision as before. */
  lemma StillAwait(w: World, k: nat, n: nat, i: nat, now: real, w': World, k': nat, n': nat, i': nat)
    requires i < |w.buckets| && AllAdmitted(w, k, n, i, now, w') && Await(w, k', n', i', now)
    requires k + n <= k'
    ensures Await(w', k', n', i', now)
  {
  }

  lemma LastAwaits(w: World, k: nat, n: nat, i: nat, now: real)
    requires n > 0 && Await(w, k, n, i, now)
    ensures Await(w, k, n - 1, i, now) && Await(w, k + n - 1, 1, i, now)
  {
  }

  /** After that, `left` tokens are left. */
  predicate Spent(w: World, k: nat, n: nat, i: nat, now: real, left: nat, w': World)
    requires i < |w.buckets|
  {
    AllAdmitted(w, k, n, i, now, w') && RateLimit.Refill(w'.buckets[i].state, now) == left as real
  }

  lemma NoneAdmitted(w: World, k: nat, i: nat, now: real, left: nat)
    requires i < |w.buckets| && RateLimit.Refill(w.buckets[i].state, now) == left as real
    ensures Spent(w, k, 0, i, now, left, w)
  {
    assert w.log + Copies(Decision(i, Light(now), true), 0) == w.log;
  }

  /** One more decision, when `n` are made. */
  lemma DecideNext(
    hash: Hash, es: seq<Section>, w: World, k: nat, n: nat, i: nat, now: real, left: nat)
    returns (longer: seq<Section>)
    requires Possible(hash, es) && Await(w, k + n, 1, i, now) && Spent(w, k, n, i, now, left + 1, After(hash, es))
    ensures Possible(hash, longer) && Spent(w, k, n + 1, i, now, left, After(hash, longer))
  {
    var w' := After(hash, es);
    StillAwait(w, k, n, i, now, w', k + n, 1, i);
    var b := DecideOne(hash, w', k + n, i, now, left);
    OneMoreAdmitted(w, k, n, i, now, w', b);
    longer := Extend(hash, es, Decide(k + n));
  }

  /** `n` decisions, one after the other. */
  lemma {:induction false} ManyDecides(hash: Hash, es: seq<Section>, k: nat, n: nat, i: nat, now: real, left: nat)
    returns (longer: seq<Section>)
    requires Possible(hash, es) && Await(After(hash, es), k, n, i, now)
    requires RateLimit.Refill(After(hash, es).buckets[i].state, now) == (n + left) as real
    ensures Possible(hash, longer) && Spent(After(hash, es), k, n, i, now, left, After(hash, longer))
    decreases n
  {
    var w := After(hash, es);
    if n == 0 {
      longer := es;
      NoneAdmitted(w, k, i, now, left);
    } else {
      LastAwaits(w, k, n, i, now);
      longer := ManyDecides(hash, es, k, n - 1, i, now, left + 1);
      longer := DecideNext(hash, longer, w, k, n - 1, i, now, left);
    }
  }

  lemma {:induction false} PassedCopies(log: seq<Decision>, i: nat, bs: set<nat>, now: real, n: nat)
    requires i in bs
    ensures Passed(Requests, log + Copies(Decision(i, Light(now), true), n), bs, now, now) ==
            Passed(Requests, log, bs, now, now) + n
    decreases n
  {
    var d := Decision(i, Light(now), true);
    if n == 0 {
      assert log + Copies(d, 0) == log;
    } else {
      PassedCopies(log, i, bs, now, n - 1);
      CopiesSnoc(log, d, n - 1);
      LogSnoc(Requests, log + Copies(d, n - 1), d, i, bs, now, now);
    }
  }

  /** A lookup that creates a bucket. */
  lemma NewBucket(hash: Hash, w: World, ip: bytes, now: real)
    requires Valid(w) && ip !in w.table
    ensures Step(hash, w, Look(ip, now, 0, 0)) ==
            w.(buckets := w.buckets + [Object(ip, now, RateLimit.NewState(now))],
               table := w.table[ip := |w.buckets|],
               lookups := w.lookups + [Lookup(|w.buckets|, Light(now))])
  {
  }

  /** A cleanup that removes the only bucket of the table. */
  lemma OnlyBucketGoes(hash: Hash, w: World, ip: bytes, now: real)
    requires Valid(w) && w.table.Keys == {ip} && Stale(w.buckets[w.table[ip]].state, now)
    ensures Step(hash, w, CleanUp(ShardFor(hash, ip), now)) == w.(table := map[])
  {
  }

  /** `n` lookups of an old bucket of `ip`, with a first one before them. */
  lemma OldBucket(hash: Hash, ip: bytes, n: nat) returns (es: seq<Section>)
    ensures Possible(hash, es)
    ensures After(hash, es) ==
            World([Object(ip, 0.0, RateLimit.NewState(0.0))], map[ip := 0],
                  [Lookup(0, Light(0.0))] + Copies(Lookup(0, Light(601.0)), n), {}, [])
  {
    NewBucket(hash, START, ip, 0.0);
    es := Extend(hash, [], Look(ip, 0.0, 0, 0));
    assert After(hash, es) ==
           World([Object(ip, 0.0, RateLimit.NewState(0.0))], map[ip := 0], [Lookup(0, Light(0.0))], {}, []);
    es := ManyLooks(hash, es, ip, 601.0, n);
  }

  /** A cleanup removes it before they are decided, and `n` more lookups find a new one. */
  lemma BucketIsReplaced(hash: Hash, ip: bytes, n: nat) returns (es: seq<Section>)
    requires n > 0
    ensures Possible(hash, es)
    ensures After(hash, es) ==
            World([Object(ip, 0.0, RateLimit.NewState(0.0)), Object(ip, 601.0, RateLimit.NewState(601.0))],
                  map[ip := 1],
                  [Lookup(0, Light(0.0))] + Copies(Lookup(0, Light(601.0)), n)
                  + [Lookup(1, Light(601.0))] + Copies(Lookup(1, Light(601.0)), n - 1), {}, [])
  {
    es := OldBucket(hash, ip, n);
    OnlyBucketGoes(hash, After(hash, es), ip, 601.0);
    es := Extend(hash, es, CleanUp(ShardFor(hash, ip), 601.0));
    NewBucket(hash, After(hash, es), ip, 601.0);
    es := Extend(hash, es, Look(ip, 601.0, 0, 0));
    es := ManyLooks(hash, es, ip, 601.0, n - 1);
  }

  lemma BothAwait(w: World, n: nat)
    requires n > 0 && |w.buckets| == 2 && w.decided == {}
    requires w.lookups == [Lookup(0, Light(0.0))] + Copies(Lookup(0, Light(601.0)), n)
                          + [Lookup(1, Light(601.0))] + Copies(Lookup(1, Light(601.0)), n - 1)
    ensures Await(w, 1, n, 0, 601.0) && Await(w, n + 1, n, 1, 601.0)
  {
  }

  /** What both buckets admit, one after the other. */
  lemma BothAdmit(hash: Hash, before: seq<Section>, n: nat) returns (es: seq<Section>)
    requires Possible(hash, before) && |After(hash, before).buckets| == 2 && After(hash, before).log == []
    requires Await(After(hash, before), 1, n, 0, 601.0) && Await(After(hash, before), n + 1, n, 1, 601.0)
    requires RateLimit.Refill(After(hash, before).buckets[0].state, 601.0) == n as real
    requires RateLimit.Refill(After(hash, before).buckets[1].state, 601.0) == n as real
    ensures Possible(hash, es) && |After(hash, es).buckets| == 2
    ensures forall j :: 0 <= j < 2 ==> After(hash, es).buckets[j].ip == After(hash, before).buckets[j].ip
    ensures Passed(Requests, After(hash, es).log, {0, 1}, 601.0, 601.0) == 2 * n
  {
    var w := After(hash, before);
    es := ManyDecides(hash, before, 1, n, 0, 601.0, 0);
    var w' := After(hash, es);
    StillAwait(w, 1, n, 0, 601.0, w', n + 1, n, 1);
    PassedCopies([], 0, {0, 1}, 601.0, n);
    es := ManyDecides(hash, es, n + 1, n, 1, 601.0, 0);
    PassedCopies(w'.log, 1, {0, 1}, 601.0, n);
  }

  /** 20 requests of one address at one moment: each of its two buckets admits 10. */
  lemma TwoBucketsAdmitTwice(hash: Hash, ip: bytes, n: nat) returns (es: seq<Section>)
    requires n == RateLimit.BURST_LIMIT
    ensures Possible(hash, es) && BucketsOf(After(hash, es), ip) == {0, 1}
    ensures Passed(Requests, After(hash, es).log, {0, 1}, 601.0, 601.0) == 2 * n
  {
    es := BucketIsReplaced(hash, ip, n);
    BothAwait(After(hash, es), n);
    es := BothAdmit(hash, es, n);
  }

  /**
    When a cleanup comes between lookup and decision, an address can get more than the bound of a
    bucket, which holds for it when each request is one step.
   */
  lemma AddressBoundFails(hash: Hash, ip: bytes)
    ensures exists es :: Possible(hash, es) &&
              Passed(Requests, After(hash, es).log, BucketsOf(After(hash, es), ip), 601.0, 601.0) as real
                > Bound(Requests, 601.0, 601.0)
  {
    var es := TwoBucketsAdmitTwice(hash, ip, RateLimit.BURST_LIMIT);
  }
}
