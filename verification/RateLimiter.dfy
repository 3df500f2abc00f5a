/**
  The sharded limiter of pkg/mcp/ratelimit.go: one map of buckets per shard, refining one flat map,
  and the cleanup of stale entries.
 */
module RateLimiter {
  import opened Bytes
  import opened RateLimit

  // ---------------------------------------------------------------- the flat limiter

  const NUM_SHARDS := 16

  type Shard = i: nat | i < NUM_SHARDS

  /** The hash of an address: FNV-1a in the source, here any function. */
  type Hash = bytes -> nat

  function ShardFor(hash: Hash, ip: bytes): Shard {
    hash(ip) % NUM_SHARDS
  }

  /** One bucket per client address. */
  type Table = map<bytes, State>

  /**
    `Clean` is the part of a cleanup that holds the lock of one shard.  A cleanup reads the clock
    once, before its first shard, and requests may come between its shards.
   */
  datatype Event =
    | Allow(ip: bytes, now: real, active: int, weight: nat)
    | Clean(shard: Shard, now: real)

  function AllowIn(m: Table, ip: bytes, now: real, active: int, weight: nat): (Table, Answer) {
    var (b, a) := Decide(if ip in m then m[ip] else NewState(now), now, CurrentLimit(active), weight);
    (m[ip := b], a)
  }

  predicate Stale(b: State, now: real) {
    now - b.lastSeen > STALE_TIMEOUT
  }

  function CleanIn(hash: Hash, m: Table, shard: Shard, now: real): Table {
    map ip | ip in m && !(ShardFor(hash, ip) == shard && Stale(m[ip], now)) :: m[ip]
  }

  /** A whole cleanup that no request comes between. */
  function CleanupIn(m: Table, now: real): Table {
    map ip | ip in m && !Stale(m[ip], now) :: m[ip]
  }

  /** The answers of a run. */
  function Answers(hash: Hash, m: Table, es: seq<Event>): seq<Answer>
    decreases |es|
  {
    if es == [] then []
    else
      match es[0]
      case Allow(ip, now, active, weight) =>
        var (m', a) := AllowIn(m, ip, now, active, weight);
        [a] + Answers(hash, m', es[1..])
      case Clean(shard, now) => Answers(hash, CleanIn(hash, m, shard, now), es[1..])
  }

  /** The table after one event. */
  function TableAfter(hash: Hash, m: Table, e: Event): Table {
    match e
    case Allow(ip, now, active, weight) => AllowIn(m, ip, now, active, weight).0
    case Clean(shard, now) => CleanIn(hash, m, shard, now)
  }

  function AnswerTo(m: Table, e: Event): Answer
    requires e.Allow?
  {
    AllowIn(m, e.ip, e.now, e.active, e.weight).1
  }

  /** The answers of a run are those of its first event and of the others. */
  lemma AnswersCons(hash: Hash, m: Table, es: seq<Event>)
    requires es != []
    ensures var more := Answers(hash, TableAfter(hash, m, es[0]), es[1..]);
            Answers(hash, m, es) ==
            if es[0].Allow? then [AnswerTo(m, es[0])] + more else more
  {
  }

  // ---------------------------------------------------------------- stale buckets

  /** What a monotone clock guarantees of every bucket, at time `t`. */
  predicate Sane(b: State, t: real) {
    && 0.0 <= b.burstTokens <= BURST_LIMIT as real
    && b.lastBurst == b.lastSeen <= t
    && b.windowStart <= b.lastSeen
  }

  /** A stale bucket decides like a new one exactly for requests that carry a weight. */
  lemma StaleDecidesLikeNew(b: State, now: real, limit: int, weight: nat)
    requires Sane(b, now) && Stale(b, now)
    ensures Decide(b, now, limit, weight) == Decide(NewState(now), now, limit, weight) <==> weight >= 1
  {
  }

  // ---------------------------------------------------------------- which runs observe a cleanup

  function Later(t: real, now: real): real {
    if t < now then now else t
  }

  /**
    The clock never runs backwards: no request comes before `t`, nor before what an event before it
    has read.  What a cleanup has read may lie behind the requests that came between its shards.
   */
  predicate Ordered(t: real, es: seq<Event>)
    decreases |es|
  {
    es == [] || ((es[0].Allow? ==> t <= es[0].now) && Ordered(Later(t, es[0].now), es[1..]))
  }

  function WithoutCleanup(es: seq<Event>): seq<Event>
    decreases |es|
  {
    if es == [] then []
    else (if es[0].Clean? then [] else [es[0]]) + WithoutCleanup(es[1..])
  }

  /** `m` lacks only buckets of `full` that are stale at `t`. */
  ghost predicate Thinned(m: Table, full: Table, t: real) {
    && (forall ip :: ip in full ==> Sane(full[ip], t))
    && (forall ip :: ip in m ==> ip in full && m[ip] == full[ip])
    && (forall ip :: ip in full && ip !in m ==> Stale(full[ip], t))
  }

  /** The request has no weight, and its bucket is missing from `m` alone. */
  predicate Exposes(m: Table, full: Table, e: Event) {
    e.Allow? && e.weight == 0 && e.ip in full && e.ip !in m
  }

  /** A request is answered from both tables alike exactly when it does not expose a missing bucket. */
  lemma AnswerExactly(m: Table, full: Table, t: real, e: Event)
    requires Thinned(m, full, t) && e.Allow? && t <= e.now
    ensures AnswerTo(m, e) == AnswerTo(full, e)
            <==> !Exposes(m, full, e)
  {
    if e.ip in full && e.ip !in m && e.weight > 0 {
      StaleDecidesLikeNew(full[e.ip], e.now, CurrentLimit(e.active), e.weight);
    }
  }

  lemma AllowKeepsThinned(hash: Hash, m: Table, full: Table, t: real, e: Event)
    requires Thinned(m, full, t) && e.Allow? && t <= e.now && !Exposes(m, full, e)
    ensures Thinned(TableAfter(hash, m, e), TableAfter(hash, full, e), e.now)
  {
    if e.ip in full && e.ip !in m {
      StaleDecidesLikeNew(full[e.ip], e.now, CurrentLimit(e.active), e.weight);
    }
  }

  lemma CleanKeepsThinned(hash: Hash, m: Table, full: Table, t: real, shard: Shard, now: real)
    requires Thinned(m, full, t)
    ensures Thinned(CleanIn(hash, m, shard, now), full, Later(t, now))
  {
  }

  /** Some request of the run exposes a missing bucket. */
  predicate Seen(hash: Hash, m: Table, full: Table, es: seq<Event>)
    decreases |es|
  {
    es != [] &&
    (|| Exposes(m, full, es[0])
     || Seen(hash, TableAfter(hash, m, es[0]), if es[0].Allow? then TableAfter(hash, full, es[0]) else full, es[1..]))
  }

  lemma WithoutCleanupCons(es: seq<Event>)
    requires es != []
    ensures WithoutCleanup(es) == if es[0].Clean? then WithoutCleanup(es[1..]) else [es[0]] + WithoutCleanup(es[1..])
  {
    assert [] + WithoutCleanup(es[1..]) == WithoutCleanup(es[1..]);
  }

  /** One event of the two runs. */
  lemma AnswersBoth(hash: Hash, m: Table, full: Table, es: seq<Event>)
    requires es != [] && es[0].Allow?
    ensures var e := es[0];
            Answers(hash, m, es) == Answers(hash, full, WithoutCleanup(es)) <==>
            && AnswerTo(m, e) == AnswerTo(full, e)
            && Answers(hash, TableAfter(hash, m, e), es[1..]) ==
               Answers(hash, TableAfter(hash, full, e), WithoutCleanup(es[1..]))
  {
    var e, rest := es[0], WithoutCleanup(es[1..]);
    WithoutCleanupCons(es);
    assert ([e] + rest)[1..] == rest;
    AnswersCons(hash, m, es);
    AnswersCons(hash, full, [e] + rest);
    ConsEqual(AnswerTo(m, e), Answers(hash, TableAfter(hash, m, e), es[1..]),
              AnswerTo(full, e), Answers(hash, TableAfter(hash, full, e), rest));
  }

  lemma ConsEqual(a: Answer, more: seq<Answer>, a': Answer, more': seq<Answer>)
    ensures [a] + more == [a'] + more' <==> a == a' && more == more'
  {
    assert ([a] + more)[0] == a && ([a'] + more')[0] == a';
    assert ([a] + more)[1..] == more && ([a'] + more')[1..] == more';
  }

  lemma {:induction false} AnswersAgreeExactly(hash: Hash, m: Table, full: Table, t: real, es: seq<Event>)
    requires Thinned(m, full, t) && Ordered(t, es)
    ensures Answers(hash, m, es) == Answers(hash, full, WithoutCleanup(es)) <==> !Seen(hash, m, full, es)
    decreases |es|
  {
    if es != [] {
      var e := es[0];
      if e.Clean? {
        AnswersCons(hash, m, es);
        WithoutCleanupCons(es);
        CleanKeepsThinned(hash, m, full, t, e.shard, e.now);
        AnswersAgreeExactly(hash, TableAfter(hash, m, e), full, Later(t, e.now), es[1..]);
      } else {
        AnswersBoth(hash, m, full, es);
        AnswerExactly(m, full, t, e);
        if !Exposes(m, full, e) {
          AllowKeepsThinned(hash, m, full, t, e);
          AnswersAgreeExactly(hash, TableAfter(hash, m, e), TableAfter(hash, full, e), e.now, es[1..]);
        }
      }
    }
  }

  // ---------------------------------------------------------------- the same, read off the events

  predicate IsRequestOf(e: Event, ip: bytes) {
    e.Allow? && e.ip == ip
  }

  /** The number of the last request of `ip` before event `n`, -1 when there is none. */
  function Last(es: seq<Event>, ip: bytes, n: nat): (i: int)
    requires n <= |es|
    ensures -1 <= i < n && (i >= 0 ==> IsRequestOf(es[i], ip))
    ensures forall k :: i < k < n ==> !IsRequestOf(es[k], ip)
  {
    if n == 0 then -1 else if IsRequestOf(es[n - 1], ip) then n - 1 else Last(es, ip, n - 1)
  }

  /** The event is a cleanup of the shard of `ip` that finds it idle since `seen` for too long. */
  predicate Removes(hash: Hash, e: Event, ip: bytes, seen: real) {
    e.Clean? && e.shard == ShardFor(hash, ip) && e.now - seen > 600.0
  }

  /** A cleanup has removed the bucket of `ip` since its last request before event `n`. */
  predicate Removed(hash: Hash, es: seq<Event>, ip: bytes, n: nat)
    requires n <= |es|
  {
    var i := Last(es, ip, n);
    i >= 0 && exists j :: i < j < n && Removes(hash, es[j], ip, es[i].now)
  }

  /** Event `n` is a request without a weight, the first of its address since a cleanup removed its bucket. */
  predicate ObservesCleanup(hash: Hash, es: seq<Event>, n: nat) {
    n < |es| && es[n].Allow? && es[n].weight == 0 && Removed(hash, es, es[n].ip, n)
  }

  /** What the tables before event `n` hold for `ip`, by the events before it. */
  predicate ReflectsAt(hash: Hash, es: seq<Event>, n: nat, m: Table, full: Table, ip: bytes)
    requires n <= |es|
  {
    var i := Last(es, ip, n);
    if i < 0 then ip !in full && ip !in m
    else
      && ip in full && full[ip].lastSeen == es[i].now
      && if Removed(hash, es, ip, n) then ip !in m else ip in m && m[ip] == full[ip]
  }

  ghost predicate Reflects(hash: Hash, es: seq<Event>, n: nat, m: Table, full: Table)
    requires n <= |es|
  {
    forall ip :: ReflectsAt(hash, es, n, m, full, ip)
  }

  lemma ExposesExactly(hash: Hash, es: seq<Event>, n: nat, m: Table, full: Table)
    requires n < |es| && Reflects(hash, es, n, m, full)
    ensures Exposes(m, full, es[n]) <==> ObservesCleanup(hash, es, n)
  {
    if es[n].Allow? { assert ReflectsAt(hash, es, n, m, full, es[n].ip); }
  }

  /** One event later, for an address that made no request. */
  lemma RemovedLater(hash: Hash, es: seq<Event>, ip: bytes, n: nat)
    requires n < |es| && !IsRequestOf(es[n], ip)
    ensures Last(es, ip, n + 1) == Last(es, ip, n)
    ensures var i := Last(es, ip, n);
            Removed(hash, es, ip, n + 1) <==>
            i >= 0 && (Removed(hash, es, ip, n) || Removes(hash, es[n], ip, es[i].now))
  {
  }

  lemma ReflectsClean(hash: Hash, es: seq<Event>, n: nat, m: Table, full: Table)
    requires n < |es| && es[n].Clean? && Reflects(hash, es, n, m, full)
    ensures Reflects(hash, es, n + 1, CleanIn(hash, m, es[n].shard, es[n].now), full)
  {
    var (next, m') := (n + 1, CleanIn(hash, m, es[n].shard, es[n].now));
    forall ip
      ensures ReflectsAt(hash, es, next, m', full, ip)
    {
      assert ReflectsAt(hash, es, n, m, full, ip);
      RemovedLater(hash, es, ip, n);
    }
  }

  lemma ReflectsAllow(hash: Hash, es: seq<Event>, n: nat, m: Table, full: Table, b: State)
    requires n < |es| && es[n].Allow? && Reflects(hash, es, n, m, full) && b.lastSeen == es[n].now
    ensures Reflects(hash, es, n + 1, m[es[n].ip := b], full[es[n].ip := b])
  {
    var (next, m', full') := (n + 1, m[es[n].ip := b], full[es[n].ip := b]);
    forall ip
      ensures ReflectsAt(hash, es, next, m', full', ip)
    {
      assert ReflectsAt(hash, es, n, m, full, ip);
      if ip != es[n].ip {
        RemovedLater(hash, es, ip, n);
      }
    }
  }

  /** A request that exposes nothing leaves the same bucket in both tables. */
  lemma SameBucket(m: Table, full: Table, t: real, e: Event) returns (b: State)
    requires Thinned(m, full, t) && e.Allow? && t <= e.now && !Exposes(m, full, e)
    ensures b.lastSeen == e.now
    ensures AllowIn(m, e.ip, e.now, e.active, e.weight).0 == m[e.ip := b]
    ensures AllowIn(full, e.ip, e.now, e.active, e.weight).0 == full[e.ip := b]
  {
    b := AllowIn(m, e.ip, e.now, e.active, e.weight).0[e.ip];
    if e.ip in full && e.ip !in m {
      StaleDecidesLikeNew(full[e.ip], e.now, CurrentLimit(e.active), e.weight);
    }
  }

  lemma {:induction false} SeenExactly(hash: Hash, es: seq<Event>, n: nat, m: Table, full: Table, t: real)
    requires n <= |es| && Reflects(hash, es, n, m, full) && Thinned(m, full, t) && Ordered(t, es[n..])
    ensures Seen(hash, m, full, es[n..]) <==> exists k: nat :: n <= k && ObservesCleanup(hash, es, k)
    decreases |es| - n
  {
    if n < |es| {
      var e := es[n];
      assert es[n..][0] == e && es[n..][1..] == es[n + 1..];
      ExposesExactly(hash, es, n, m, full);
      if e.Clean? {
        ReflectsClean(hash, es, n, m, full);
        CleanKeepsThinned(hash, m, full, t, e.shard, e.now);
        SeenExactly(hash, es, n + 1, TableAfter(hash, m, e), full, Later(t, e.now));
      } else if !Exposes(m, full, e) {
        AllowKeepsThinned(hash, m, full, t, e);
        var b := SameBucket(m, full, t, e);
        ReflectsAllow(hash, es, n, m, full, b);
        SeenExactly(hash, es, n + 1, TableAfter(hash, m, e), TableAfter(hash, full, e), e.now);
      }
    }
  }

  /**
    In every run with a monotone clock, the answers are those of a limiter that never cleans up,
    even when requests come between the shards of a cleanup, exactly when no request without a
    weight is the first of its address since a cleanup removed its bucket.
   */
  lemma CleanupIsUnobservableExactly(hash: Hash, t: real, es: seq<Event>)
    requires Ordered(t, es)
    ensures Answers(hash, map[], es) == Answers(hash, map[], WithoutCleanup(es)) <==>
            !exists n: nat :: ObservesCleanup(hash, es, n)
  {
    AnswersAgreeExactly(hash, map[], map[], t, es);
    assert es[0..] == es;
    SeenExactly(hash, es, 0, map[], map[], t);
  }

  /** In particular when every request carries a weight. */
  lemma CleanupIsUnobservable(hash: Hash, t: real, es: seq<Event>)
    requires Ordered(t, es) && forall k :: 0 <= k < |es| && es[k].Allow? ==> es[k].weight >= 1
    ensures Answers(hash, map[], es) == Answers(hash, map[], WithoutCleanup(es))
  {
    CleanupIsUnobservableExactly(hash, t, es);
  }

  /** A shortest run in which a cleanup is seen. */
  lemma WeightZeroObservesCleanup(hash: Hash, ip: bytes)
    ensures var es := [Allow(ip, 0.0, 0, 1), Clean(ShardFor(hash, ip), 601.0), Allow(ip, 601.0, 0, 0)];
            Answers(hash, map[], es) != Answers(hash, map[], WithoutCleanup(es))
  {
    var es := [Allow(ip, 0.0, 0, 1), Clean(ShardFor(hash, ip), 601.0), Allow(ip, 601.0, 0, 0)];
    assert Last(es, ip, 2) == 0 && Removes(hash, es[1], ip, es[0].now);
    assert ObservesCleanup(hash, es, 2);
    assert es[1..] == [es[1], es[2]] && [es[1], es[2]][1..] == [es[2]] && [es[2]][1..] == [];
    assert Ordered(601.0, [es[2]]) && Ordered(0.0, [es[1], es[2]]);
    CleanupIsUnobservableExactly(hash, 0.0, es);
  }

  // ---------------------------------------------------------------- the sharded limiter

  class Bucket {
    var burstTokens: real
    var lastBurst: real
    var weightedCount: int
    var windowStart: real
    var lastSeen: real

    ghost function Abs(): State
      reads this
    {
      State(burstTokens, lastBurst, weightedCount, windowStart, lastSeen)
    }

    constructor (now: real)
      ensures Abs() == NewState(now)
    {
      burstTokens, lastBurst, weightedCount, windowStart, lastSeen := BURST_LIMIT as real, now, 0, now, now;
    }

    /** The part of `allow` that holds the bucket's lock. */
    method Take(now: real, limit: int, weight: nat) returns (a: Answer)
      modifies this
      ensures (Abs(), a) == Decide(old(Abs()), now, limit, weight)
    {
      lastSeen := now;
      var elapsed := now - lastBurst;
      burstTokens := burstTokens + elapsed * BURST_LIMIT as real;
      if burstTokens > BURST_LIMIT as real {
        burstTokens := BURST_LIMIT as real;
      }
      lastBurst := now;
      if burstTokens < 1.0 {
        return Answer(false, limit, 0, now + Wait(burstTokens));
      }
      if weight == 0 {
        burstTokens := burstTokens - 1.0;
        return Answer(true, limit, AtLeastZero(limit - weightedCount), windowStart + MINUTE);
      }
      if now - windowStart >= MINUTE {
        weightedCount := 0;
        windowStart := now;
      }
      var resetTime := windowStart + MINUTE;
      if weightedCount + weight > limit {
        return Answer(false, limit, AtLeastZero(limit - weightedCount), resetTime);
      }
      burstTokens := burstTokens - 1.0;
      weightedCount := weightedCount + weight;
      return Answer(true, limit, AtLeastZero(limit - weightedCount), resetTime);
    }
  }

  ghost predicate IsShard(hash: Hash, shard: map<bytes, Bucket>, i: nat, buckets: map<bytes, Bucket>) {
    && (forall ip :: ip in shard <==> ip in buckets && ShardFor(hash, ip) == i)
    && (forall ip :: ip in shard ==> shard[ip] == buckets[ip])
  }

  /** Each address lives only in its own shard. */
  ghost predicate Sharded(hash: Hash, shards: seq<map<bytes, Bucket>>, buckets: map<bytes, Bucket>) {
    |shards| == NUM_SHARDS && forall i :: 0 <= i < NUM_SHARDS ==> IsShard(hash, shards[i], i, buckets)
  }

  lemma ShardedInsert(hash: Hash, shards: seq<map<bytes, Bucket>>, buckets: map<bytes, Bucket>, ip: bytes, b: Bucket)
    requires Sharded(hash, shards, buckets)
    ensures var i := ShardFor(hash, ip); Sharded(hash, shards[i := shards[i][ip := b]], buckets[ip := b])
  {
    forall i | 0 <= i < NUM_SHARDS
      ensures IsShard(hash, if i == ShardFor(hash, ip) then shards[i][ip := b] else shards[i], i, buckets[ip := b])
    {
      assert IsShard(hash, shards[i], i, buckets);
    }
  }

  lemma ShardedRemove(
    hash: Hash, shards: seq<map<bytes, Bucket>>, buckets: map<bytes, Bucket>, i: nat, gone: set<bytes>)
    requires Sharded(hash, shards, buckets) && i < NUM_SHARDS && gone <= shards[i].Keys
    ensures Sharded(hash, shards[i := shards[i] - gone], buckets - gone)
  {
    assert IsShard(hash, shards[i], i, buckets);
    forall j | 0 <= j < NUM_SHARDS
      ensures IsShard(hash, if j == i then shards[i] - gone else shards[j], j, buckets - gone)
    {
      assert IsShard(hash, shards[j], j, buckets);
    }
  }

  /** No two addresses share a bucket. */
  ghost predicate Separate(buckets: map<bytes, Bucket>) {
    forall ip, ip' :: ip in buckets && ip' in buckets && ip != ip' ==> buckets[ip] != buckets[ip']
  }

  /** The table tells what is in the buckets. */
  ghost predicate Told(buckets: map<bytes, Bucket>, table: Table)
    reads buckets.Values
  {
    table.Keys == buckets.Keys && forall ip :: ip in buckets ==> buckets[ip].Abs() == table[ip]
  }

  /** Creating a missing bucket first makes no difference to the decision. */
  lemma {:induction false} AllowAfterFind(
    m: Table, found: Table, ip: bytes, now: real, active: int, weight: nat, was: State)
    requires found == if ip in m then m else m[ip := NewState(now)]
    requires found[ip] == was
    ensures var (b, a) := Decide(was, now, CurrentLimit(active), weight);
            AllowIn(m, ip, now, active, weight) == (found[ip := b], a)
  {
    var b := Decide(was, now, CurrentLimit(active), weight).0;
    assert found[ip := b] == m[ip := b];
  }

  /** The table without the stale addresses of the first `n` shards. */
  function CleanBelow(hash: Hash, m: Table, n: nat, now: real): Table {
    map ip | ip in m && !(ShardFor(hash, ip) < n && Stale(m[ip], now)) :: m[ip]
  }

  lemma CleanOneMore(hash: Hash, m: Table, shard: Shard, now: real)
    ensures CleanIn(hash, CleanBelow(hash, m, shard, now), shard, now) == CleanBelow(hash, m, shard + 1, now)
  {
  }

  lemma RemovingIsCleaning(hash: Hash, m: Table, gone: set<bytes>, shard: Shard, now: real)
    requires forall ip :: ip in gone <==> ip in m && ShardFor(hash, ip) == shard && Stale(m[ip], now)
    ensures m - gone == CleanIn(hash, m, shard, now)
  {
  }

  lemma MoveOver(answers: seq<Answer>, a: Answer, more: seq<Answer>)
    ensures answers + ([a] + more) == answers + [a] + more
  {
  }

  class Limiter {
    const hash: Hash
    var shards: seq<map<bytes, Bucket>>
    /** The bucket of each address, and the flat table the shards stand for. */
    ghost var buckets: map<bytes, Bucket>
    ghost var table: Table

    ghost predicate Valid()
      reads this, buckets.Values
    {
      Sharded(hash, shards, buckets) && Separate(buckets) && Told(buckets, table)
    }

    constructor (hash: Hash)
      ensures Valid() && table == map[] && this.hash == hash
    {
      this.hash := hash;
      shards := seq(NUM_SHARDS, _ => map[]);
      buckets, table := map[], map[];
    }

    /** The critical section of the shard's lock: find the bucket of `ip` or create it. */
    method Find(ip: bytes, now: real) returns (b: Bucket)
      requires Valid()
      modifies this
      ensures Valid() && ip in buckets && b == buckets[ip]
      ensures ip in old(buckets) ==> buckets == old(buckets)
      ensures ip !in old(buckets) ==> buckets == old(buckets)[ip := b] && fresh(b)
      ensures table == if ip in old(table) then old(table) else old(table)[ip := NewState(now)]
      ensures table[ip] == b.Abs()
    {
      var idx := ShardFor(hash, ip);
      assert IsShard(hash, shards[idx], idx, buckets);
      if ip !in shards[idx] {
        b := new Bucket(now);
        ShardedInsert(hash, shards, buckets, ip, b);
        shards := shards[idx := shards[idx][ip := b]];
        buckets, table := buckets[ip := b], table[ip := NewState(now)];
      } else {
        b := shards[idx][ip];
      }
    }

    /** The critical section of the bucket's lock. */
    method TakeFrom(b: Bucket, ghost ip: bytes, now: real, limit: int, weight: nat) returns (a: Answer)
      requires Valid() && ip in buckets && b == buckets[ip]
      modifies this`table, b
      ensures Valid()
      ensures var d := Decide(old(table)[ip], now, limit, weight); table == old(table)[ip := d.0] && a == d.1
    {
      a := b.Take(now, limit, weight);
      table := table[ip := b.Abs()];
    }

    /** The buckets are old ones or new. */
    twostate predicate KeepsBuckets()
      reads this
    {
      forall ip :: ip in buckets ==> buckets[ip] in old(buckets).Values || fresh(buckets[ip])
    }

    /** `allow`, with the lookup and the decision as one step. */
    method Admit(ip: bytes, now: real, active: int, weight: nat) returns (a: Answer)
      requires Valid()
      modifies this, buckets.Values
      ensures Valid() && KeepsBuckets()
      ensures (table, a) == AllowIn(old(table), ip, now, active, weight)
    {
      var limit := CurrentLimit(active);
      var b := Find(ip, now);
      AllowAfterFind(old(table), table, ip, now, active, weight, table[ip]);
      a := TakeFrom(b, ip, now, limit, weight);
    }

    /** The addresses of one shard that `cleanup` collects. */
    method CollectStale(shard: map<bytes, Bucket>, now: real) returns (staleIPs: seq<bytes>)
      ensures forall ip :: ip in staleIPs <==> ip in shard && Stale(shard[ip].Abs(), now)
    {
      staleIPs := [];
      var todo := shard.Keys;
      while todo != {}
        invariant todo <= shard.Keys
        invariant forall ip :: ip in staleIPs <==> ip in shard && ip !in todo && Stale(shard[ip].Abs(), now)
        decreases |todo|
      {
        var ip :| ip in todo;
        if now - shard[ip].lastSeen > STALE_TIMEOUT {
          staleIPs := staleIPs + [ip];
        }
        todo := todo - {ip};
      }
    }

    /** The deleting loop. */
    method DeleteAll(shard: map<bytes, Bucket>, ips: seq<bytes>) returns (kept: map<bytes, Bucket>)
      ensures kept == shard - set ip | ip in ips
    {
      kept := shard;
      for k := 0 to |ips|
        invariant kept == shard - set ip | ip in ips[..k]
      {
        assert ips[..k + 1] == ips[..k] + [ips[k]];
        kept := kept - {ips[k]};
      }
      assert ips[..|ips|] == ips;
    }

    /** One turn of the loop of `cleanup`: the stale addresses of one shard go. */
    method CleanShard(shard: Shard, now: real)
      requires Valid()
      modifies this
      ensures Valid() && KeepsBuckets()
      ensures table == CleanIn(hash, old(table), shard, now)
    {
      var staleIPs := CollectStale(shards[shard], now);
      var kept := DeleteAll(shards[shard], staleIPs);
      ghost var gone := set ip | ip in staleIPs;
      assert IsShard(hash, shards[shard], shard, buckets);
      RemovingIsCleaning(hash, table, gone, shard, now);
      ShardedRemove(hash, shards, buckets, shard, gone);
      shards := shards[shard := kept];
      buckets, table := buckets - gone, table - gone;
    }

    /** `cleanup`, when no request comes between its shards. */
    method RemoveStale(now: real)
      requires Valid()
      modifies this
      ensures Valid() && KeepsBuckets() && table == CleanupIn(old(table), now)
    {
      for i := 0 to NUM_SHARDS
        invariant Valid() && KeepsBuckets()
        invariant table == CleanBelow(hash, old(table), i, now)
      {
        CleanOneMore(hash, old(table), i, now);
        CleanShard(i, now);
      }
    }

    /** A run of requests and of cleanups, shard by shard, in the order in which they take their locks. */
    method RunEvents(es: seq<Event>) returns (answers: seq<Answer>)
      requires Valid()
      modifies this, buckets.Values
      ensures Valid() && answers == Answers(hash, old(table), es)
    {
      answers := [];
      for i := 0 to |es|
        invariant Valid() && KeepsBuckets()
        invariant answers + Answers(hash, table, es[i..]) == Answers(hash, old(table), es)
      {
        AnswersCons(hash, table, es[i..]);
        assert es[i..][1..] == es[i + 1..];
        match es[i]
        case Allow(ip, now, active, weight) =>
          var a := Admit(ip, now, active, weight);
          MoveOver(answers, a, Answers(hash, table, es[i + 1..]));
          answers := answers + [a];
        case Clean(shard, now) => CleanShard(shard, now);
      }
    }
  }
}
