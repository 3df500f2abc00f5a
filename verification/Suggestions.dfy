/** Keyword suggestion (pkg/errors/hints.go) and its bounded cache (pkg/errors/cache.go). */
module Suggestions {
  import opened Bytes
  import opened EditDistance

  // ---------------------------------------------------------------- what a suggestion is

  /** The largest distance at which a keyword is still suggested. */
  function Limit(input: bytes): nat {
    var threshold := if |input| / 2 < 2 then 2 else |input| / 2;
    if |input| < threshold then |input| else threshold
  }

  /** Keyword `k` is the first of those nearest to the input. */
  ghost predicate FirstNearest(keywords: seq<bytes>, input: bytes, k: nat) {
    && k < |keywords|
    && (forall j :: 0 <= j < |keywords| ==> Distance(input, keywords[k]) <= Distance(input, keywords[j]))
    && (forall j :: 0 <= j < k ==> Distance(input, keywords[k]) < Distance(input, keywords[j]))
  }

  /** `r` is the first keyword nearest to the input if that is near enough, and empty otherwise. */
  ghost predicate IsSuggestion(keywords: seq<bytes>, input: bytes, r: bytes) {
    || (r == [] && forall j :: 0 <= j < |keywords| ==> Distance(input, keywords[j]) > Limit(input))
    || exists k: nat ::
         FirstNearest(keywords, input, k) && Distance(input, keywords[k]) <= Limit(input) && r == keywords[k]
  }

  /** A keyword is near enough at distance 2, or at half the length of the input, but not beyond that length. */
  lemma LimitExactly(input: bytes, distance: nat)
    ensures distance <= Limit(input) <==> distance <= |input| && (distance <= 2 || 2 * distance <= |input|)
  {
  }

  /** So a cached suggestion can only be the one computed afresh. */
  lemma SuggestionUnique(keywords: seq<bytes>, input: bytes, r: bytes, r': bytes)
    requires IsSuggestion(keywords, input, r) && IsSuggestion(keywords, input, r')
    ensures r == r'
  {
  }

  // ---------------------------------------------------------------- the cache as a state machine

  /** The cache and its counters; `inserted` and `cleared` exist only for the accounting. */
  datatype State = State(
    cache: map<bytes, bytes>,
    hits: int,
    misses: int,
    evictions: int,
    inserted: int,
    cleared: int)

  datatype Op =
    | Get(input: bytes)
    | Set(input: bytes, suggestion: bytes)
    | Clear

  const EMPTY := State(map[], 0, 0, 0, 0, 0)

  function Half(maxSize: int): nat {
    if maxSize / 2 < 0 then 0 else maxSize / 2
  }

  /** What `range` over the map may leave: all of a cache with room, or any half of the capacity. */
  ghost predicate Kept(maxSize: int, cache: map<bytes, bytes>, kept: map<bytes, bytes>) {
    if |cache| < maxSize then kept == cache
    else |kept| == Half(maxSize) && forall k :: k in kept ==> k in cache && kept[k] == cache[k]
  }

  ghost predicate SetStep(maxSize: int, s: State, input: bytes, suggestion: bytes, kept: map<bytes, bytes>, s': State) {
    && Kept(maxSize, s.cache, kept)
    && s' == s.(cache := kept[input := suggestion],
                evictions := s.evictions + |s.cache| - |kept|,
                inserted := s.inserted + if input in kept then 0 else 1)
  }

  /** One locked operation; which half survives an eviction is left open. */
  ghost predicate Step(maxSize: int, s: State, op: Op, s': State) {
    match op
    case Get(input) => s' == if input in s.cache then s.(hits := s.hits + 1) else s.(misses := s.misses + 1)
    case Set(input, suggestion) => exists kept :: SetStep(maxSize, s, input, suggestion, kept, s')
    case Clear => s' == s.(cache := map[], cleared := s.cleared + |s.cache|)
  }

  /** Every entry is the suggestion its token deserves. */
  ghost predicate Correct(keywords: seq<bytes>, cache: map<bytes, bytes>) {
    forall token :: token in cache ==> IsSuggestion(keywords, token, cache[token])
  }

  ghost predicate Inv(keywords: seq<bytes>, maxSize: int, s: State) {
    && Correct(keywords, s.cache)
    && (|s.cache| <= maxSize || |s.cache| <= 1)
    && s.inserted == |s.cache| + s.evictions + s.cleared
    && s.evictions >= 0
  }

  /** What callers do: they store only what they computed, whoever else is running. */
  ghost predicate Honest(keywords: seq<bytes>, op: Op) {
    op.Set? ==> IsSuggestion(keywords, op.input, op.suggestion)
  }

  lemma SubmapIsSmaller(cache: map<bytes, bytes>, kept: map<bytes, bytes>)
    requires forall k :: k in kept ==> k in cache
    ensures |kept| <= |cache|
    decreases |kept|
  {
    if kept.Keys != {} {
      var k :| k in kept;
      assert (kept - {k}).Keys == kept.Keys - {k} && (cache - {k}).Keys == cache.Keys - {k};
      SubmapIsSmaller(cache - {k}, kept - {k});
    }
  }

  lemma StepKeepsInv(keywords: seq<bytes>, maxSize: int, s: State, op: Op, s': State)
    requires Inv(keywords, maxSize, s) && Step(maxSize, s, op, s') && Honest(keywords, op)
    ensures Inv(keywords, maxSize, s')
  {
    if op.Set? {
      var kept :| SetStep(maxSize, s, op.input, op.suggestion, kept, s');
      SubmapIsSmaller(s.cache, kept);
      assert s'.cache.Keys == kept.Keys + {op.input};
    }
  }

  /** `states` records a run of the cache from empty, one operation at a time. */
  ghost predicate Run(maxSize: int, states: seq<State>, ops: seq<Op>) {
    && |states| == |ops| + 1 && states[0] == EMPTY
    && forall i :: 0 <= i < |ops| ==> Step(maxSize, states[i], ops[i], states[i + 1])
  }

  lemma {:induction false} RunKeepsInv(keywords: seq<bytes>, maxSize: int, states: seq<State>, ops: seq<Op>, i: nat)
    requires Run(maxSize, states, ops) && i < |states|
    requires forall j :: 0 <= j < |ops| ==> Honest(keywords, ops[j])
    ensures Inv(keywords, maxSize, states[i])
    decreases i
  {
    if i > 0 {
      RunKeepsInv(keywords, maxSize, states, ops, i - 1);
      assert states[i - 1 + 1] == states[i];
      StepKeepsInv(keywords, maxSize, states[i - 1], ops[i - 1], states[i]);
    }
  }

  /**
    At every point of every run, whatever the interleaving and whichever halves were evicted, a
    cached suggestion is the one computed afresh, the cache is within its capacity, and every
    insertion is still there, was evicted, or was cleared.
   */
  lemma CacheIsTransparent(keywords: seq<bytes>, maxSize: int, states: seq<State>, ops: seq<Op>, i: nat)
    requires Run(maxSize, states, ops) && i < |states|
    requires forall j :: 0 <= j < |ops| ==> Honest(keywords, ops[j])
    ensures forall token, computed ::
              token in states[i].cache && IsSuggestion(keywords, token, computed) ==> states[i].cache[token] == computed
    ensures maxSize >= 1 ==> |states[i].cache| <= maxSize
    ensures states[i].inserted == |states[i].cache| + states[i].evictions + states[i].cleared
  {
    RunKeepsInv(keywords, maxSize, states, ops, i);
    forall token, computed | token in states[i].cache && IsSuggestion(keywords, token, computed)
      ensures states[i].cache[token] == computed
    {
      SuggestionUnique(keywords, token, states[i].cache[token], computed);
    }
  }

  // ---------------------------------------------------------------- the cache object

  class KeywordSuggestionCache {
    var cache: map<bytes, bytes>
    const maxSize: int
    var hits: nat
    var misses: nat
    var evictions: nat
    ghost var inserted: nat
    ghost var cleared: nat

    ghost function Abs(): State
      reads this
    {
      State(cache, hits, misses, evictions, inserted, cleared)
    }

    constructor (maxSize: int)
      ensures this.maxSize == maxSize && Abs() == EMPTY
    {
      this.maxSize := maxSize;
      cache, hits, misses, evictions, inserted, cleared := map[], 0, 0, 0, 0, 0;
    }

    method Lookup(input: bytes) returns (result: bytes, ok: bool)
      modifies this
      ensures ok <==> input in old(cache)
      ensures result == if ok then old(cache)[input] else []
      ensures Step(maxSize, old(Abs()), Get(input), Abs())
      ensures cache == old(cache) && evictions == old(evictions)
      ensures hits == old(hits) + (if ok then 1 else 0) && misses == old(misses) + (if ok then 0 else 1)
    {
      ok := input in cache;
      if ok {
        result := cache[input];
        hits := hits + 1;
      } else {
        result := [];
        misses := misses + 1;
      }
    }

    /** The copying loop of `set`: any entries, up to half of the capacity. */
    method KeepHalf() returns (newCache: map<bytes, bytes>, count: nat)
      requires |cache| >= maxSize
      ensures count == |newCache| <= |cache| && Kept(maxSize, cache, newCache)
    {
      newCache, count := map[], 0;
      var todo := cache.Keys;
      while todo != {} && count < maxSize / 2
        invariant todo == cache.Keys - newCache.Keys && newCache.Keys <= cache.Keys
        invariant forall k :: k in newCache ==> newCache[k] == cache[k]
        invariant count == |newCache| <= Half(maxSize) && |todo| == |cache| - count
        decreases |todo|
      {
        var k :| k in todo;
        assert newCache[k := cache[k]].Keys == newCache.Keys + {k};
        newCache := newCache[k := cache[k]];
        count := count + 1;
        todo := todo - {k};
      }
    }

    method Store(input: bytes, suggestion: bytes)
      modifies this
      ensures Step(maxSize, old(Abs()), Set(input, suggestion), Abs())
      ensures input in cache && cache[input] == suggestion
      ensures forall k :: k in cache && k != input ==> k in old(cache) && cache[k] == old(cache)[k]
      ensures |old(cache)| < maxSize ==> cache == old(cache)[input := suggestion] && evictions == old(evictions)
      ensures 0 <= maxSize <= |old(cache)| ==> evictions == old(evictions) + |old(cache)| - maxSize / 2
      ensures hits == old(hits) && misses == old(misses)
    {
      ghost var s := Abs();
      if |cache| >= maxSize {
        var newCache, count := KeepHalf();
        evictions := evictions + (|cache| - count);
        cache := newCache;
      }
      ghost var kept := cache;
      inserted := inserted + if input in cache then 0 else 1;
      cache := cache[input := suggestion];
      assert SetStep(maxSize, s, input, suggestion, kept, Abs());
    }

    method Reset()
      modifies this
      ensures Step(maxSize, old(Abs()), Clear, Abs())
      ensures cache == map[] && hits == old(hits) && misses == old(misses) && evictions == old(evictions)
    {
      cleared := cleared + |cache|;
      cache := map[];
    }

    method Size() returns (n: nat)
      ensures n == |cache|
    {
      n := |cache|;
    }
  }

  // ---------------------------------------------------------------- SuggestKeyword

  /** The keyword loop and the threshold test. */
  method Compute(keywords: seq<bytes>, input: bytes) returns (result: bytes)
    ensures IsSuggestion(keywords, input, result)
    ensures keywords == [] ==> result == []
    ensures result != [] ==> exists k ::
              && 0 <= k < |keywords| && result == keywords[k]
              && (forall j :: 0 <= j < |keywords| ==> Distance(input, keywords[k]) <= Distance(input, keywords[j]))
              && (forall j :: 0 <= j < k ==> Distance(input, keywords[k]) < Distance(input, keywords[j]))
    ensures forall k :: 0 <= k < |keywords| && FirstNearest(keywords, input, k) ==>
              var d := Distance(input, keywords[k]);
              result == if d <= |input| && (d <= 2 || 2 * d <= |input|) then keywords[k] else []
  {
    var minDistance := |input| + 1;
    var bestMatch: bytes := [];
    ghost var best: nat := 0;
    for i := 0 to |keywords|
      invariant forall j :: 0 <= j < i ==> minDistance <= Distance(input, keywords[j]) || minDistance == |input| + 1
      invariant minDistance <= |input| + 1
      invariant minDistance == |input| + 1 ==>
        bestMatch == [] && forall j :: 0 <= j < i ==> Distance(input, keywords[j]) > |input|
      invariant minDistance <= |input| ==>
        && best < i && bestMatch == keywords[best] && minDistance == Distance(input, keywords[best])
        && forall j :: 0 <= j < best ==> minDistance < Distance(input, keywords[j])
    {
      var distance := LevenshteinDistance(input, keywords[i]);
      if distance < minDistance {
        minDistance := distance;
        bestMatch := keywords[i];
        best := i;
      }
    }
    var threshold := |input| / 2;
    if threshold < 2 {
      threshold := 2;
    }
    result := [];
    if minDistance <= threshold {
      result := bestMatch;
    }
    LimitExactly(input, minDistance);
    if minDistance <= |input| {
      assert FirstNearest(keywords, input, best);
    }
  }

  /**
    `SuggestKeyword`: through the cache, the answer is the one computed afresh.  `upper` stands for
    the library's conversion to upper case, whatever that does.
   */
  method SuggestKeyword(
    suggestions: KeywordSuggestionCache, upper: bytes -> bytes, keywords: seq<bytes>, token: bytes)
    returns (result: bytes)
    requires Inv(keywords, suggestions.maxSize, suggestions.Abs())
    modifies suggestions
    ensures Inv(keywords, suggestions.maxSize, suggestions.Abs())
    ensures if upper(token) == [] then result == [] && suggestions.Abs() == old(suggestions.Abs())
            else IsSuggestion(keywords, upper(token), result)
                 && upper(token) in suggestions.cache && suggestions.cache[upper(token)] == result
    ensures forall t :: t in suggestions.cache ==> t in old(suggestions.cache) || t == upper(token)
  {
    var input := upper(token);
    if input == [] {
      return [];
    }
    var cached, ok := suggestions.Lookup(input);
    if ok {
      return cached;
    }
    result := Compute(keywords, input);
    ghost var s := suggestions.Abs();
    suggestions.Store(input, result);
    StepKeepsInv(keywords, suggestions.maxSize, s, Set(input, result), suggestions.Abs());
  }
}
