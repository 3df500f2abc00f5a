# GoSQLX: statement splitting, suggestions, rate limiting and the language server's document engine

A Dafny model of four algorithmic parts of GoSQLX, with proofs of what they promise.
`dafny verify dfyconfig.toml` checks all of it.

- **Statement splitter** (`Lexemes`, `Splitter`, `SplitterLaws`, `SplitterTexts`). The byte loop of
  `splitWithProfile`, flags and all, is proved to cut the source exactly at the semicolons that
  are lexemes by themselves, where "lexeme" is defined without running anything. From there:
  every source has exactly one reading as lexemes, the splitter restarts after a top-level
  semicolon (and after nothing else), it loses no byte, and its statements are stable.
  Quoted text of every kind keeps its semicolons, where the dialect has that kind, and text in which
  nothing opens is cut at each of them. All laws hold for all 32 combinations of the five dialect switches.
- **Edit distance, keyword suggestion, cache** (`EditDistance`, `Suggestions`). The in-place
  matrix holds the length of a shortest edit script, where a script is a sequence of edits
  carried out one by one; the distance is a metric. The cache, with any half of it evicted, never
  changes an answer in any interleaving of its operations.
- **Rate limiters** (`RateLimit`, `RateDecisions`, `RateLimiter`, `ClientRuns`, `ClientBounds`, `TwoSections`,
  `LspRateLimit`). Bounds over whole runs: bursts,
  weighted minutes under a limit that moves, exactly when a request is admitted, said of the requests
  and of which were admitted before it, what `remaining` and `resetTime` promise, and what
  one client can get out of the whole limiter while others, load and cleanups come between. The
  sharded maps of buckets refine one flat table, and the runs in which cleaning up stale buckets
  can be seen are named exactly. With lookup and decision as separate steps, every bucket still
  keeps its bounds.
- **Document engine of the language server** (`Positions`, `Documents`, `Outline`,
  `SignatureHelp`, `SemanticTokens`, `Framing`, `Debounce`, `DebouncedSessions`). Documents edited in place with a line
  cache refine plain splicing; every position converter is measured against one definition of
  where a position points; outline ranges, bracket scan, 32-bit token stream, message framing,
  and the debounced diagnostics as a protocol of interleaved steps.

Strings are sequences of bytes. Times and burst tokens are reals, in seconds. Code that updates
state in place is modelled by classes and loops proved against a function of the old state; the
laws are lemmas about those functions.

## What the proofs found

- `pkg/lsp/handler.go:1520-1548` means to end a statement's outline range at its latest positioned
  node. The walk starts from the unset location, and `locBefore` is false for unset locations, so
  nothing is ever found: `Outline.LatestIsNeverFound`. A statement is taken to end just after the
  next semicolon byte instead, even one inside a string or a comment, or at the end of the document
  (`Outline.EndsAfterSemicolon`); its range ends there, or before the next statement's start when
  that comes first.
- `pkg/lsp/doc.go:430-431` promises 100 requests per second in a rolling window. The window of
  `checkRateLimit` does not roll. `LspRateLimit.MostIsExact` gives the exact number that can pass in
  any interval as long as the window, from any state: the promise holds for an interval if and only
  if no two windows can touch it (`LspRateLimit.RollingWindowExactly`). Otherwise up to 199 can pass,
  and 200 if and only if the window open at the start has counted no message, as in a new server
  (`LspRateLimit.AllOfTwoWindowsExactly`). From a reset on, 100 do hold: `LspRateLimit.OneWindowBound`.
- Cleaning up stale buckets changes some answer of a run if and only if some request without a weight
  (`initialize`, `list_tools`) is the first of its address since a cleanup removed its bucket: it is
  told the end of a new window instead of the old one
  (`RateLimiter.CleanupIsUnobservableExactly`).
- When a cleanup comes between the lookup and the decision of a request, one address has two buckets
  in use, and 20 of its requests can pass at one moment: `TwoSections.AddressBoundFails`. Each bucket
  keeps its bounds: `TwoSections.EveryBucketIsBounded`.
- The reset time announced after a refused burst is cut to whole milliseconds, so it can be the present
  moment with no token there. It is exact if and only if the wait is a whole number of milliseconds:
  `RateLimit.BurstResetWithinMillisecond`, `RateLimit.BurstResetCanBeEarly`.
- `lineColToOffset` and `positionToOffset` disagree exactly for lines that do not exist (-1 against the
  length plus one) and for columns past the end of a line that is not the last one:
  `Positions.ConvertersAgreeExactly`.
- A ranged change whose start is past the last line makes `applyChange` slice beyond the text:
  `Documents.ApplicableExactly`.
- Closing a document does not always stop its diagnostics. It does if and only if all that is under
  way for the document is the pending timer (`Debounce.ClosingSilencesExactly`). A timer that still
  waits can escape its close: if and only if, when it is scheduled, an earlier timer of the document
  has fired and its callback has not yet run its `delete` (lines 338-340), whichever `Stop` that
  timer outran, that of the change (line 335) or that of an earlier close (line 360). The late
  `delete` then takes the new timer off the map, and the close does not see it
  (`Debounce.ScheduleIsSafeExactly`, `Debounce.ClosingInTime`). `Debounce.CloseMissesTimer` and
  `Debounce.ReopenedTimerIsMissed` are runs of either kind.
- The comment at `pkg/lsp/documents.go:279` says that `splitLines` preserves line endings; it drops
  them.

## Model

| member | source | states |
|---|---|---|
| Lexemes.TagLengthMeaning | pkg/gosqlx/splitter.go:281-333 | the tag reader finds exactly the one `$$` or `$name$` that starts at a byte, and nothing only when there is none |
| Lexemes.StringSpanIsEnd | pkg/gosqlx/splitter.go:158-180 | a string ends at the closing quote as described by its text (doubled quotes, escape pairs in E-strings, ordinary bytes), or runs to the end |
| Lexemes.CommentSpanIsEnd | pkg/gosqlx/splitter.go:128-144 | a block comment ends where as many closers as openers have first been counted, or stays open to the end |
| Lexemes.FlatCommentEndsAtFirst | pkg/gosqlx/splitter.go:128-144 | where comments do not nest, one ends at the first star-slash |
| Lexemes.SpansIsEnd | pkg/gosqlx/splitter.go:119-205 | each of the seven contexts ends exactly where its declarative description says |
| Lexemes.OpenerExactly | pkg/gosqlx/splitter.go:208-262 | each context opens exactly at its own literal bytes, where the dialect has it, and nothing opens anywhere else |
| Lexemes.LexemeIsEnd | pkg/gosqlx/splitter.go:92-279 | the automaton cuts off a word exactly when that word is a lexeme, in every profile |
| Splitter.ReadDollarTag | pkg/gosqlx/splitter.go:289-310 | the scanning loop returns the dollar tag at a `$`, or fails when there is none |
| Splitter.InContext | pkg/gosqlx/splitter.go:119-205 | inside a context, the flags stand for one context before and after, the bytes written are the bytes passed, and the context moves as the lexemes say |
| Splitter.AtTop | pkg/gosqlx/splitter.go:208-262 | at top level, the flags open exactly the context of the lexeme that starts there |
| Splitter.Turn | pkg/gosqlx/splitter.go:115-273 | one turn of the loop keeps the invariant (one context at most, E-string only in a string, comment depth at most 1 unless comments nest) and emits a statement only at a top-level semicolon |
| Splitter.SplitWithProfile | pkg/gosqlx/splitter.go:92-279 | the loop computes the split defined by the lexemes |
| SplitterLaws.BoundariesExist | pkg/gosqlx/splitter.go:92-279 | every source is a sequence of lexemes |
| SplitterLaws.BoundariesUnique | pkg/gosqlx/splitter.go:92-279 | in exactly one way |
| SplitterLaws.SplitCutsAtLoneSemicolons | pkg/gosqlx/splitter.go:92-279 | however a source is written as lexemes, the cuts are exactly the semicolons that are lexemes by themselves |
| SplitterLaws.LexemeTransfers | pkg/gosqlx/splitter.go:115-318 | a lexeme that ends before a semicolon is the same whatever follows, in spite of lookahead |
| SplitterLaws.Restart | pkg/gosqlx/splitter.go:115-318 | after a top-level semicolon, Split(a + b) is Split(a) followed by Split(b), for every b and every profile |
| SplitterLaws.RestartExactly | pkg/gosqlx/splitter.go:115-318 | that law holds for every b if and only if a is empty or ends in a top-level semicolon |
| SplitterLaws.Lossless | pkg/gosqlx/splitter.go:92-279 | statements joined by semicolons, and one more when the source ends in a top-level one, are the source; the result is empty only for the empty source |
| SplitterLaws.Stable | pkg/gosqlx/splitter.go:92-279 | splitting a non-empty statement again returns just that statement |
| SplitterTexts.SingleQuoted | pkg/gosqlx/splitter.go:92-279 | any bytes in single quotes with their quotes doubled, semicolons and all, are one statement, ended by a semicolon after them, in every dialect |
| SplitterTexts.EStringQuoted | pkg/gosqlx/splitter.go:92-279 | so are any bytes in an E-string with quotes and backslashes escaped, where there are E-strings |
| SplitterTexts.DoubleQuoted | pkg/gosqlx/splitter.go:92-279 | so is text in double quotes, in every dialect |
| SplitterTexts.BacktickQuoted | pkg/gosqlx/splitter.go:92-279 | text in backticks, where the dialect has them |
| SplitterTexts.BracketQuoted | pkg/gosqlx/splitter.go:92-279 | text in brackets, where the dialect has them |
| SplitterTexts.LineComment | pkg/gosqlx/splitter.go:92-279 | a line comment, to the end of its line or of the source |
| SplitterTexts.BlockComment | pkg/gosqlx/splitter.go:92-279 | a block comment |
| SplitterTexts.NestedComment | pkg/gosqlx/splitter.go:92-279 | comments in comments of any depth, where they nest |
| SplitterTexts.TagOfName | pkg/gosqlx/splitter.go:322-333 | a dollar tag is two dollars around letters, underscores and, after the first, digits |
| SplitterTexts.DollarQuoted | pkg/gosqlx/splitter.go:92-279 | text between two equal dollar tags, where there is dollar quoting |
| SplitterTexts.PlainText | pkg/gosqlx/splitter.go:92-279 | text in which nothing opens is cut at every semicolon |
| SplitterTexts.PlainBytes | pkg/gosqlx/splitter.go:92-279 | in particular text without quotes, comment openers and the quotes of the dialect |
| SplitterTexts.BackticksExactly | pkg/gosqlx/splitter.go:92-279 | backticks protect every text if and only if the dialect has them |
| SplitterTexts.BracketsExactly | pkg/gosqlx/splitter.go:92-279 | brackets protect every text if and only if the dialect has them |
| SplitterTexts.DollarsExactly | pkg/gosqlx/splitter.go:92-279 | `$$;$$` is one statement with dollar quoting and two without |
| SplitterTexts.EStringsExactly | pkg/gosqlx/splitter.go:92-279 | `E'\';'` is one statement with E-strings and two without |
| SplitterTexts.NestingExactly | pkg/gosqlx/splitter.go:92-279 | a semicolon after an inner comment is hidden if and only if comments nest |
| EditDistance.FillRow | pkg/errors/hints.go:103-116 | the inner loop turns a row of prefix distances into the next one and touches nothing else |
| EditDistance.CellFromNeighbours | pkg/errors/hints.go:105-114 | the distance of two prefixes is the least of the three the matrix takes it from |
| EditDistance.LevenshteinDistance | pkg/errors/hints.go:84-119 | the matrix loop returns the distance |
| EditDistance.ShortestScript | pkg/errors/hints.go:83-119 | a script of that many edits exists |
| EditDistance.NoShorterScript | pkg/errors/hints.go:83-119 | no script is shorter |
| EditDistance.DistanceIsShortestScript | pkg/errors/hints.go:83-119 | the distance is the length of a shortest script of insertions, deletions and substitutions, for all strings |
| EditDistance.Min3 | pkg/errors/hints.go:121-132 | the least of three |
| EditDistance.DistanceBounds | pkg/errors/hints.go:84-132 | the distance lies between the difference of the lengths and the larger length |
| EditDistance.ZeroMeansEqual | pkg/errors/hints.go:84-132 | zero exactly for equal strings |
| EditDistance.Symmetric | pkg/errors/hints.go:84-132 | symmetric |
| EditDistance.Triangle | pkg/errors/hints.go:84-132 | the triangle inequality |
| Suggestions.Compute | pkg/errors/hints.go:54-75 | the first keyword at minimum distance when that is at most min(len, max(2, len/2)), else the empty string |
| Suggestions.LimitExactly | pkg/errors/hints.go:65-75 | a keyword is near enough at distance 2 or at half the length of the input, but not beyond that length |
| Suggestions.SuggestionUnique | pkg/errors/hints.go:54-75 | that fixes the answer |
| Suggestions.SuggestKeyword | pkg/errors/hints.go:43-81 | through the cache, the answer is the one computed afresh, and the cache stays correct |
| Suggestions.KeywordSuggestionCache.constructor | pkg/errors/cache.go:43-48 | an empty cache |
| Suggestions.KeywordSuggestionCache.Lookup | pkg/errors/cache.go:51-61 | the stored suggestion, with a hit or a miss counted |
| Suggestions.KeywordSuggestionCache.KeepHalf | pkg/errors/cache.go:80-93 | the copying loop keeps entries of the cache, as many as half the capacity |
| Suggestions.KeywordSuggestionCache.Store | pkg/errors/cache.go:64-96 | one step of the cache, with some half evicted when it is full and the evictions counted |
| Suggestions.KeywordSuggestionCache.Reset | pkg/errors/cache.go:99-103 | all entries go |
| Suggestions.KeywordSuggestionCache.Size | pkg/errors/cache.go:106-110 | the number of entries |
| Suggestions.StepKeepsInv | pkg/errors/cache.go:51-103 | every operation keeps every entry correct, the size within capacity, and insertions balanced |
| Suggestions.RunKeepsInv | pkg/errors/cache.go:51-103 | so does every run, whichever halves are evicted |
| Suggestions.CacheIsTransparent | pkg/errors/cache.go:51-110 | at every point of every run a cached suggestion is the one computed afresh, the size is at most maxSize when maxSize is at least 1, and insertions = size + evictions + cleared |
| RateLimit.CurrentLimit | pkg/mcp/ratelimit.go:107-117 | 120 up to 50 active requests, 30 above 80, and 60 in between |
| RateLimit.PotentialPaysForAdmissions | pkg/mcp/ratelimit.go:150-193 | in any timestamp order burstTokens - 10 * lastBurst pays for every admission and is never refilled |
| RateLimit.TokensStayInRange | pkg/mcp/ratelimit.go:150-193 | under a monotone clock the tokens stay within 0 and 10 |
| RateLimit.BurstBound | pkg/mcp/ratelimit.go:150-193 | under a monotone clock at most 10 + 10 * (to - from) requests of a run are admitted in [from, to] |
| RateLimit.CountStaysInRange | pkg/mcp/ratelimit.go:174-199 | the weighted count exceeds no cap on the limits of the run, however they move, unless it did so before |
| RateLimit.SustainedBound | pkg/mcp/ratelimit.go:174-199 | under a monotone clock and limits up to a cap, a weight of at most twice the cap is admitted in any half-open minute |
| RateLimit.WindowBound | pkg/mcp/ratelimit.go:174-199 | and in the minute of the present window no more than what is left of the cap |
| RateLimit.BurstBoundIsReached | pkg/mcp/ratelimit.go:150-193 | for every n, some run admits 10 + n requests in n tenths of a second, so 20 in one second |
| RateLimit.SustainedBoundIsReached | pkg/mcp/ratelimit.go:174-199 | some run admits a weight of 240 in one minute |
| RateLimit.RemainingIsExact | pkg/mcp/ratelimit.go:163-199 | until the reset a weighted request with a burst token passes if and only if its weight is at most `remaining` |
| RateLimit.BurstResetWithinMillisecond | pkg/mcp/ratelimit.go:158-161 | after a refused burst no token is back before `resetTime`, one is a millisecond later, and at `resetTime` itself if and only if the wait is a whole number of milliseconds |
| RateLimit.BurstResetCanBeEarly | pkg/mcp/ratelimit.go:158-161 | with 0.9995 tokens the announced time is the present one, and a request then is refused |
| RateLimit.WindowResetIsKept | pkg/mcp/ratelimit.go:174-199 | from `resetTime` on a request within the whole limit passes if a burst token is left |
| RateDecisions.TokenExactly | pkg/mcp/ratelimit.go:150-161 | there is a token if and only if, counted from any earlier request on, ten and ten more a second leave room for one more |
| RateDecisions.WindowIsKept | pkg/mcp/ratelimit.go:174-199 | the bucket holds the start of the window and the weight admitted since, as counted over the run |
| RateDecisions.DecisionExactly | pkg/mcp/ratelimit.go:145-199 | a request is admitted if and only if there is such room and, when it has a weight, what its window has admitted and that weight are within its own limit; the answer tells that limit, what remains of it, and the end of the window |
| RateLimiter.StaleDecidesLikeNew | pkg/mcp/ratelimit.go:125-200 | a bucket idle for more than ten minutes gives the answer and the state of a new one if and only if the request carries a weight |
| RateLimiter.AnswerExactly | pkg/mcp/ratelimit.go:125-200 | a request is answered alike with and without its stale bucket if and only if it does not both lack a weight and miss the bucket |
| RateLimiter.CleanupIsUnobservableExactly | pkg/mcp/ratelimit.go:125-239 | in every run with a monotone clock, requests between the shards of a cleanup included, all answers are those of a limiter that never cleans up if and only if no request without a weight is the first of its address since a cleanup removed its bucket |
| RateLimiter.CleanupIsUnobservable | pkg/mcp/ratelimit.go:125-239 | in particular all answers are the same when every request carries a weight |
| RateLimiter.WeightZeroObservesCleanup | pkg/mcp/ratelimit.go:163-172 | a shortest run in which a cleanup is seen |
| ClientBounds.EventSpendsBurst | pkg/mcp/ratelimit.go:125-239 | no request of any client and no cleanup of a shard lets a client have more burst requests than its allowance |
| ClientBounds.EventSpendsWeight | pkg/mcp/ratelimit.go:125-239 | nor more weight in a minute |
| ClientBounds.EveryClientIsBounded | pkg/mcp/ratelimit.go:125-239 | in every run of a new limiter with a monotone clock, over any clients, loads, weights and cleanups, the answers admit for each client at most 10 + 10 * (to - from) requests in [from, to] and a weight of at most twice the largest limit of the run in any half-open minute |
| ClientBounds.WeightInAnyMinute | pkg/mcp/ratelimit.go:107-199 | that is 240, 120 with more than 50 active requests throughout, and 60 with more than 80 |
| ClientRuns.ClientIsARun | pkg/mcp/ratelimit.go:125-200 | without cleanups, the answers to a client are those of its own bucket to its own requests, whatever the other clients do |
| ClientRuns.ClientDecisions | pkg/mcp/ratelimit.go:125-200 | so every request is answered as `RateDecisions` says for the requests of its client alone |
| ClientRuns.UnobservedDecisions | pkg/mcp/ratelimit.go:125-239 | and so it is with cleanups, when no request observes one |
| TwoSections.EveryBucketIsARun | pkg/mcp/ratelimit.go:125-239 | with lookup and decision as separate steps, in every interleaving with cleanups, the decisions on each bucket are a run of that bucket from its creation, in the table or not |
| TwoSections.EveryBucketIsBounded | pkg/mcp/ratelimit.go:125-239 | so each bucket whose decisions come in the order of their timestamps admits at most 10 + 10 * (to - from) requests and a weight of 240 in a minute |
| TwoSections.EveryAddressIsBounded | pkg/mcp/ratelimit.go:125-239 | and an address at most as many times that as buckets were created for it |
| TwoSections.AddressBoundFails | pkg/mcp/ratelimit.go:125-239 | an interleaving in which one address has two buckets in use and gets 20 requests at one moment |
| RateLimiter.Bucket.constructor | pkg/mcp/ratelimit.go:135-140 | a full bucket and an empty window |
| RateLimiter.Bucket.Take | pkg/mcp/ratelimit.go:145-199 | the decision, in place: both layers, every refusal, every answer |
| RateLimiter.Limiter.constructor | pkg/mcp/ratelimit.go:82-91 | no buckets, and each address at home in one shard |
| RateLimiter.Limiter.Find | pkg/mcp/ratelimit.go:132-143 | the bucket of the address, created in the shard of the address when missing |
| RateLimiter.Limiter.TakeFrom | pkg/mcp/ratelimit.go:145-199 | the decision changes the bucket of that address alone |
| RateLimiter.Limiter.Admit | pkg/mcp/ratelimit.go:125-200 | the sharded limiter answers and changes like one flat table |
| RateLimiter.Limiter.CollectStale | pkg/mcp/ratelimit.go:225-233 | exactly the stale addresses of a shard |
| RateLimiter.Limiter.DeleteAll | pkg/mcp/ratelimit.go:234-236 | the shard without them |
| RateLimiter.Limiter.CleanShard | pkg/mcp/ratelimit.go:222-238 | the flat table loses exactly the stale addresses of that shard |
| RateLimiter.Limiter.RemoveStale | pkg/mcp/ratelimit.go:220-239 | the flat table loses exactly its stale addresses, when no request comes between the shards |
| RateLimiter.Limiter.RunEvents | pkg/mcp/ratelimit.go:125-239 | the objects give the answers of the flat table in every run of requests and of cleanups, shard by shard |
| LspRateLimit.Server.CheckRateLimit | pkg/lsp/server.go:561-583 | the counter and the window, in place |
| LspRateLimit.CheckSpends | pkg/lsp/server.go:561-583 | no message lets more through than the most that could |
| LspRateLimit.MostIsReached | pkg/lsp/server.go:561-583 | for every state, time and interval, a run that gets the most through |
| LspRateLimit.MostIsExact | pkg/lsp/server.go:561-583 | the exact number that can pass in any half-open interval as long as the window: no run gets more through and some run as much |
| LspRateLimit.RollingWindowExactly | pkg/lsp/server.go:561-583 | at most 100 pass in an interval as long as the window, in every run, if and only if no two windows can touch it |
| LspRateLimit.AnyIntervalBound | pkg/lsp/server.go:561-583 | at most 199 pass in any such interval, and 200 when no message has been counted yet |
| LspRateLimit.AllOfTwoWindowsExactly | pkg/lsp/server.go:561-583 | 200 can pass if and only if the window that covers the start of the interval has counted no message |
| LspRateLimit.OneWindowBound | pkg/lsp/server.go:561-583 | in every run at most 100 pass in a window from its reset on, the resetting message included |
| LspRateLimit.OpenWindowBound | pkg/lsp/server.go:561-583 | what passes before the next reset is at most what is left of 100 |
| Positions.OffsetToLineCol | pkg/lsp/handler.go:1705-1722 | the line counts the newlines before the clamped offset, the column the bytes since the last one |
| Positions.LineColToOffset | pkg/lsp/handler.go:1681-1701 | the start of the line plus the column, clamped to the document, and -1 outside |
| Positions.OffsetRoundTrip | pkg/lsp/handler.go:1681-1722 | offset to location and back is the identity on every offset of the document |
| Positions.LocationRoundTripExactly | pkg/lsp/handler.go:1681-1722 | location to offset and back is the identity if and only if the line exists and the column is within it or one past it |
| Positions.PositionToOffset | pkg/lsp/documents.go:309-323 | the loop over the line cache |
| Positions.LinesFit | pkg/lsp/documents.go:280-286 | every cached line starts where the document has it and is as long |
| Positions.PositionIsOffset | pkg/lsp/documents.go:309-323 | on a line of the document the cache finds the offset the position points to; past the last line it gives the length plus one |
| Positions.PointsToInOrder | pkg/lsp/documents.go:309-323 | positions point to at most one offset, in (line, character) order |
| Positions.ConvertersAgreeExactly | pkg/lsp/handler.go:1681-1701 | agrees with `positionToOffset` (pkg/lsp/documents.go:309-323) if and only if the line exists and the column is within it or it is the last line |
| Positions.LinesExactly | pkg/lsp/documents.go:280-286 | the split is the one list of lines without newlines that newlines join to the content |
| Documents.SplitLines | pkg/lsp/documents.go:280-286 | the content split at its newlines, one empty line for the empty content |
| Documents.CacheFindsOffset | pkg/lsp/documents.go:309-323 | the line cache gives the offset the position has in the text |
| Documents.ApplicableExactly | pkg/lsp/documents.go:289-306 | a change starts inside the text if and only if its start is on a line of it |
| Documents.OffsetsInOrder | pkg/lsp/documents.go:309-323 | positions in order have offsets in order |
| Documents.EditReplacesRange | pkg/lsp/documents.go:289-306 | a change that does not end before it starts replaces exactly the text its range points to; before and after stay; an end past the last line means the end |
| Documents.EditIsAround | pkg/lsp/documents.go:289-306 | a ranged change puts its text between what stands before its start and what stands after its end, in whichever order these are |
| Documents.EditsOneByOne | pkg/lsp/documents.go:204-214 | a list of changes goes from text to text, one for each change and in order: to the full text given, or to the text before with its range replaced |
| Documents.FullTextWins | pkg/lsp/documents.go:204-214 | what stood before the last full text does not matter |
| Documents.ApplyChange | pkg/lsp/documents.go:289-306 | applies the change as a splice, for every change that can be applied at all |
| Documents.Document.constructor | pkg/lsp/documents.go:140-146 | the content and its line cache |
| Documents.Document.ApplyAll | pkg/lsp/documents.go:204-214 | the content is the fold of the edits and the line cache is the content split at its newlines |
| Documents.Document.Change | pkg/lsp/documents.go:202-214 | the same, with the new version |
| Documents.DocumentManager.constructor | pkg/lsp/documents.go:108-112 | no documents |
| Documents.NextExactly | pkg/lsp/documents.go:137-245 | what an open, an update and a close each do to every document |
| Documents.DocumentManager.OpenDocument | pkg/lsp/documents.go:137-147 | opens or replaces that document alone |
| Documents.DocumentManager.UpdateDocument | pkg/lsp/documents.go:193-215 | edits that document alone, or does nothing when it is not open |
| Documents.DocumentManager.CloseDocument | pkg/lsp/documents.go:241-245 | removes that document alone |
| Documents.DocumentManager.Get | pkg/lsp/documents.go:249-266 | a fresh copy, or null when the document is not open |
| Documents.DocumentManager.GetContent | pkg/lsp/documents.go:269-277 | the content, or failure when the document is not open |
| Documents.DocumentManager.RunSession | pkg/lsp/documents.go:137-245 | after every session the objects hold the plain texts of the session, and every line cache is up to date |
| Documents.FormattingReplacesAll | pkg/lsp/handler.go:755-771 | the whole-document edit, applied, leaves exactly the formatted text |
| Outline.EarliestIsFirst | pkg/lsp/handler.go:1501-1515 | the walk for a start finds a position no other precedes, and none only when no node has one |
| Outline.LatestIsNeverFound | pkg/lsp/handler.go:1520-1533 | the walk for an end finds nothing |
| Outline.EndsAfterSemicolon | pkg/lsp/handler.go:1520-1568 | a statement ends just after the next semicolon, or at the end of the document when there is none |
| Outline.StepBackIsBefore | pkg/lsp/handler.go:1664-1677 | one step back is strictly before, except at the start of the document |
| Outline.ToPositionKeepsOrder | pkg/lsp/handler.go:1261-1287 | conversion to 0-based positions and clamping keep the order |
| Outline.RangesInOrder | pkg/lsp/handler.go:1233-1287 | for starts that increase within the document, every range starts where its statement does, does not end before that, and ends no later than the next one starts |
| Outline.StepBackIsOneByte | pkg/lsp/handler.go:1664-1677 | one step back is one byte back, across line ends too |
| Outline.RangeExactly | pkg/lsp/handler.go:1233-1301 | for starts that increase within the document, a range goes from its start to just after the first semicolon from there on, or the end of the document, and no further than one byte before the next start |
| SignatureHelp.FoundBefore | pkg/lsp/handler.go:1798-1811 | one step of the backward scan, against the forward stack |
| SignatureHelp.ScanBack | pkg/lsp/handler.go:1794-1811 | the backward loop finds what the forward stack holds |
| SignatureHelp.ScanIsTopOfStack | pkg/lsp/handler.go:1794-1815 | the innermost open parenthesis and the commas at its level, and nothing exactly when none is open |
| SignatureHelp.TopOfStackExactly | pkg/lsp/handler.go:1794-1815 | said by counting: the last parenthesis from which on more are opened than closed, with the commas after which as many are closed as opened, and none exactly when there is no such place |
| SignatureHelp.WordBefore | pkg/lsp/handler.go:1818-1822 | the longest word that ends before the parenthesis |
| SignatureHelp.WordIsLongest | pkg/lsp/handler.go:1818-1822 | no longer run of word bytes ends there |
| SignatureHelp.WordBytesExactly | pkg/lsp/handler.go:1819-1821 | word bytes are letters, digits and the underscore |
| SignatureHelp.GetFunctionAtPosition | pkg/lsp/handler.go:1782-1829 | name and parameter index for every line and cursor, with every failing case |
| SemanticTokens.EncodeSemanticTokens | pkg/lsp/handler.go:2143-2174 | the loop writes the five numbers of every classified token, in order |
| SemanticTokens.DecodeEncode | pkg/lsp/handler.go:2143-2174 | decoding by running sums modulo 2^32 undoes encoding from any starting point |
| SemanticTokens.RoundTrip | pkg/lsp/handler.go:2143-2174 | for tokens in any order decoding recovers every classified token ("Semantic Tokens" of LSP 3.17) |
| SemanticTokens.SortedNeverWraps | pkg/lsp/handler.go:2154-2167 | for marks in order plain sums without a modulus give the same |
| SemanticTokens.SortedRoundTrip | pkg/lsp/handler.go:2143-2174 | for sorted 1-based tokens no delta wraps and the positions are those of the tokens |
| SemanticTokens.EncodedToken | pkg/lsp/handler.go:2154-2169 | the five numbers of every classified token, by its own fields and those of the classified token before it |
| SemanticTokens.EncodedLength | pkg/lsp/handler.go:2143-2174 | five numbers for each classified token and no others |
| SemanticTokens.DecodedToken | pkg/lsp/handler.go:2143-2174 | the client reads each classified token, in order, with its line, column, length and kind, and no modifiers |
| Framing.AtoiOfDecimal | pkg/lsp/server.go:311-314 | parsing undoes printing of the length |
| Framing.DecimalDigits | pkg/lsp/server.go:481-481 | the length is written in decimal digits, without leading zeros |
| Framing.AtoiOfSigned | pkg/lsp/server.go:311-314 | a sign is read, and minus negates |
| Framing.TrimParts | pkg/lsp/server.go:302-302 | trimming takes all ASCII blanks off both ends and nothing else |
| Framing.ReadHeaderLine | pkg/lsp/server.go:297-316 | the header line that is written is read as its length |
| Framing.OtherHeaderIsSkipped | pkg/lsp/server.go:296-316 | any other line with something on it is ignored, blanks around it and line ends of either kind included |
| Framing.ReadFrame | pkg/lsp/server.go:293-335 | a written message is read back, with nothing after it touched, exactly when its content is not empty and not over the maximum |
| Framing.FramingRoundTrip | pkg/lsp/server.go:293-335 | as many reads as contents were sent give exactly the contents, none fails, and exactly their frames are consumed, whatever follows ("Base Protocol" of LSP 3.17) |
| Framing.AllAreServed | pkg/lsp/server.go:268-290 | sent contents after which the shutdown flag is not set are all handed on in order, and the loop goes on with what follows them |
| Framing.StopIsServed | pkg/lsp/server.go:268-290 | the first message after which it is set is handed on and ends the loop, with everything after it unread |
| Framing.BadFrameIsSkipped | pkg/lsp/server.go:268-328 | after an empty or an oversized frame the loop goes on, with the content as what comes next |
| Framing.NoLengthIsSkipped | pkg/lsp/server.go:268-321 | so it does after headers without a length |
| Framing.BadLengthIsSkipped | pkg/lsp/server.go:268-314 | and after a length that is no number |
| Framing.LastLineEndsRun | pkg/lsp/server.go:268-300 | it ends where no line is left |
| Framing.Writer.SendMessage | pkg/lsp/server.go:470-494 | appends one frame |
| Framing.FrameBytes | pkg/lsp/server.go:481-492 | the very bytes of header and content |
| Framing.Server.ReadLine | pkg/lsp/server.go:297-300 | takes one line off the input, or exhausts it |
| Framing.Server.ReadMessage | pkg/lsp/server.go:293-335 | the reading loop, with every error, and what is left of the input |
| Framing.Server.Run | pkg/lsp/server.go:268-290 | hands on the messages of the input one by one, skips errors, stops at the end of the input, with nothing left, or at a message that sets the shutdown flag, with all after it left |
| Debounce.ReadingAfterChange | pkg/lsp/handler.go:306-316 | what is read back after an update is what the manager held right after it |
| Debounce.CapturedWasHeld | pkg/lsp/handler.go:296-344 | what is being scheduled, carried by a timer or validated is what the manager held right after its change |
| Debounce.ValidatedWasHeld | pkg/lsp/handler.go:296-344 | in every interleaving a timer validates version v with exactly the content held right after change v |
| DebouncedSessions.TextsOfSession | pkg/lsp/handler.go:296-365 | in every interleaving the contents are those of the session of opens, edits and closes |
| DebouncedSessions.ValidatedIsSession | pkg/lsp/handler.go:296-344 | a timer that validates version v uses the fold of the edits of the session up to change v |
| DebouncedSessions.EverySessionRuns | pkg/lsp/handler.go:296-365 | every session of the document manager is a run of the protocol |
| Debounce.StepKeepsAlive | pkg/lsp/handler.go:330-365 | no step loses a change that is neither superseded nor closed |
| Debounce.NewestIsAlive | pkg/lsp/handler.go:296-365 | in every interleaving the newest change within the limit is being scheduled or carried by a timer that is not stopped |
| Debounce.NewestIsValidated | pkg/lsp/handler.go:296-365 | once all timers have run, the newest change within the limit that no close follows has been validated |
| Debounce.SilentExactly | pkg/lsp/handler.go:296-365 | no timer validates a document any more, whatever the threads do, if and only if nothing of it is being scheduled or under way |
| Debounce.ClosingSilencesExactly | pkg/lsp/handler.go:347-365 | in every interleaving a close keeps all timers from validating the document if and only if all that is under way for it is its pending timer |
| Debounce.StepKeepsKept | pkg/lsp/handler.go:330-365 | every step keeps the pending timer the only one that waits, and none waits while another has fired, except a scheduling while an earlier callback has fired and not run its `delete` |
| Debounce.ClosingInTime | pkg/lsp/handler.go:330-365 | in every interleaving without such a scheduling, a close silences the document if and only if no callback of it is under way |
| Debounce.ScheduleIsSafeExactly | pkg/lsp/handler.go:330-365 | in such an interleaving a newly scheduled timer is stopped by every close before the next change if and only if no earlier timer of the document has fired without running its `delete` |
| Debounce.OvertakenEscapes | pkg/lsp/handler.go:331-360 | from any scheduling with such an earlier timer, a continuation in which the close leaves the new timer waiting |
| Debounce.CloseMissesTimer | pkg/lsp/handler.go:331-365 | an interleaving after which a document is closed and its timer still waits |
| Debounce.ReopenedTimerIsMissed | pkg/lsp/handler.go:331-365 | another, in which the `Stop` that came too late is that of an earlier close |
| Debounce.ClosedDocumentCanBeValidated | pkg/lsp/handler.go:331-365 | and that timer validates the closed document |

## Left out

- `profileForDialect`: the table from dialect names to switches, with trimming and lower-casing; the laws hold for every combination of the switches.
- Splitter.Turn: the loop body is one method, and its two switches are two more; the flags are the fields of one value.
- Suggestions.SuggestKeyword: the keyword list (any list) and the conversion to upper case (any function) are parameters.
- Suggestions.KeywordSuggestionCache.Store: counters do not wrap at 2^64; locks and atomics appear as one step for each operation.
- Cache statistics reports and resets, suggestion texts and patterns.
- The address hash of the limiter is a parameter (any function), so FNV-1a itself is not modelled.
- RateLimiter.Limiter.Admit: lookup and decision are one step, as in `ClientBounds`; both as separate steps are in `TwoSections`, on values.
- RateLimiter.Limiter.RunEvents: takes each request as one step.
- ClientBounds.EveryClientIsBounded: is about requests that are one step each; what becomes of it otherwise is `TwoSections.EveryAddressIsBounded`.
- RateLimiter.Limiter.RemoveStale: no request comes between two shards; `CleanShard` and `RunEvents` have them.
- RateLimiter.Bucket.Take: tokens are reals, so floating-point rounding is not modelled; weights are not negative; the number of active requests is a parameter.
- RateLimit.BurstBound: like the other bounds over time it assumes timestamps that do not decrease; the time is captured before the locks (pkg/mcp/ratelimit.go:129), and for timestamps out of order there is `PotentialPaysForAdmissions`.
- HTTP middleware, address extraction, tool weights, the cleanup ticker.
- Documents.ApplyChange: negative lines and characters, and changes that start past the last line, on which the source panics.
- Positions are byte columns, as in the source; UTF-16 units are not modelled.
- Outline.RangesInOrder: a statement is given by its declared position and the positions of its nodes in the order of the bounded walk; the tree itself, symbol names, kinds and selection ranges are not modelled.
- SemanticTokens.EncodeSemanticTokens: the tokenizer and the classification are not modelled; a token carries its kind.
- SignatureHelp.GetFunctionAtPosition: negative lines, on which the source panics, and negative characters.
- Framing.Writer.SendMessage: marshalling and failing writes are not modelled.
- Framing.Server.Run: what handling does is not modelled; any function of all the messages handed on so far tells whether the shutdown flag is set after the last of them. That covers an exit message that the rate limit drops (pkg/lsp/server.go:340-347) and that therefore does not set it, but not why it was dropped. The end of the input inside a header line loses that line, as in the source.
- Framing.OtherHeaderIsSkipped: trimming covers ASCII space only; a line of other Unicode space ends the headers in the source.
- Framing.Server.ReadMessage: a negative length, on which the source panics, is an outcome of its own; trimming covers ASCII space only.
- Debounce.ValidatedWasHeld: covers validation by timers, not the direct ones of didOpen and didSave; the order in which diagnostics are published is not claimed.
- Parser, formatter, AST, completion and hover tables, configuration, logging and JSON.
