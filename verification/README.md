# Verified model of the research bot's core

A Dafny model of the stateful and algorithmic parts of the research bot: the sliding-window rate
limiter, the parallel search merge and its TTL cache, the splitter of long Telegram messages, the
GigaChat token protocol, the world-model store, the agent coordinator, and the smaller loops around
them (brace extraction, fence stripping, relevant context, cache key, critic revision, source quota).

`dafny verify dfyconfig.toml` checks the whole project.

## How the model is built

* Code that works on fields, maps or slices in place is a class or an array method in Dafny. Its
  `ensures` ties the new state to a function of the old one, and the theorems are about that function:
  single-operation facts first, then whole runs.
* Where several goroutines share state and no one lock covers a whole operation (the token protocol,
  the collection of agent responses), the model is a transition system over every interleaving. Where
  one mutex covers each whole operation (limiter, cache), a run is a sequence of whole operations.
* The clock, identifiers drawn by uuid.New, and everything the LLM, the search service and the auth
  endpoint say are parameters and may be anything. The clock does not run backwards where a theorem
  needs it, and no identifier is drawn twice.
* Ranging over a Go map visits the keys in an arbitrary order (`MapIteration.InSomeOrder`), and
  `sort.Slice` leaves an arbitrary outcome of an unstable sort (`Ordering.IsSortOf`).
* Strings are sequences of bytes or characters (see the last section); integers are unbounded; scores and confidences are reals.

## Where code and documentation differ

* `ResetTime` is documented as approximate (internal/ratelimit/ratelimit.go:78). Right after a denial it
  is exact: `RateLimiter.ResetTimeIsExact`.
* The unit test of `SplitMessage` expects that no tag is broken (internal/telegram/formatter_test.go:87-121).
  For every limit there is a text of which one is, in a part that exceeds the limit:
  `MessageSplitter.CutCanBreakTag`. `MessageSplitter.SplitsSafelyIff` and `MessageSplitter.PartsFitIff` say
  exactly when neither happens, by the guards that each cut meets, and
  `MessageSplitter.BreakableTextIsCutSafely` gives a condition on the text alone that is enough.
* A user may hold more than the maximum of 100 sources, since the seed import does not look at the
  limit: `SourceQuota.ImportStaysWithinLimitIff` says when, and `SourceQuota.QuotaBoundIsReached` that for
  every seed list some run goes as far as the proved bound.
* Cached searches are keyed by the query and the domains run together, so different searches can share a
  key: `CacheKey.SameKeyIff` says exactly which, and `CacheKey.KeysCanCollide` shows three ways. How many
  results were asked for is not part of the key, so a hit need not equal a fresh search:
  what was found for one request is served to another (`CachedSearch.HitNeedNotBeFresh`).
  `CachedSearch.HitIsFreshIff` says when a hit is sure to be fresh, and
  `CachedSearch.AloneUnderItsKeyIsFresh` gives a condition on the requests alone.
* A token refused to one caller is invalidated without a look at which token is cached by then, so a new
  one that another caller has just fetched may go: `TokenProtocol.NewerTokenIsThrownAwayIff`.
* A fenced block is stripped only if no prose stands above it: `FenceStripping.BlockIsRecoveredIff`.
* A configured critic `MaxRetries` of zero is taken for unset and becomes 2
  (internal/service/query.go:106-108); the model starts from the value in force.

## Model

| member | source | states |
|---|---|---|
| `RateLimiter.Limiter.constructor` | internal/ratelimit/ratelimit.go:20-33 | a non-positive limit becomes 10, the window is one minute, and no user has a history |
| `RateLimiter.Limiter.Allow` | internal/ratelimit/ratelimit.go:35-58 | the answer and every user's log afterwards are those of the value-level step, although the user's slice is compacted within its own array and other users' arrays sit beside it |
| `RateLimiter.Limiter.RemainingRequests` | internal/ratelimit/ratelimit.go:60-76 | answers limit minus the calls in the window, never below zero, and changes nothing |
| `RateLimiter.Limiter.ResetTime` | internal/ratelimit/ratelimit.go:79-96 | answers oldest logged call plus the window, or now for an empty log |
| `RateLimiter.Limiter.Cleanup` | internal/ratelimit/ratelimit.go:100-122 | whatever order the users come up in, each log loses its stale calls and users left with none disappear |
| `RateLimiter.SweepInAnyOrder` | internal/ratelimit/ratelimit.go:103-120 | sweeping users one at a time gives the same logs in every order |
| `RateLimiter.CompactInPlace` | internal/ratelimit/ratelimit.go:43-49 | filtering within the slice's own backing array leaves exactly the timestamps after the cutoff, in order |
| `RateLimiter.Append` | internal/ratelimit/ratelimit.go:56 | the slice gains one element at the end, in its own array exactly if there is room and in a fresh one otherwise |
| `RateLimiter.LogAgreesWithHistory` | internal/ratelimit/ratelimit.go:35-122 | after any run the pruned log and the full admission history coincide on everything after any cutoff that can still matter |
| `RateLimiter.AnswersRefineHistory` | internal/ratelimit/ratelimit.go:43-76 | every Allow and RemainingRequests answers as a specification that keeps the whole admission history and looks at one user only: pruning, the sweep and other users are unobservable |
| `RateLimiter.AnswersCountGrants` | internal/ratelimit/ratelimit.go:35-76 | a call is let through if and only if fewer than limit granted calls lie in the window that it ends, and RemainingRequests says how many fewer |
| `RateLimiter.GrantsAreAdmissions` | internal/ratelimit/ratelimit.go:35-58 | the instants at which the limiter let a user through are exactly the specification's admissions |
| `RateLimiter.WindowSafety` | internal/ratelimit/ratelimit.go:35-58 | in every run no half-open interval one window long holds more than limit admitted calls of a user |
| `RateLimiter.ResetTimeIsExact` | internal/ratelimit/ratelimit.go:79-96 | after a denial, whatever else happens before the reset time, the user's next call is admitted if and only if it comes at or after it, and the reset time itself does not move |
| `RateLimiter.ResetTimeMeaning` | internal/ratelimit/ratelimit.go:79-96 | at any time, not only after a denial, the reset time is one window after the earliest granted call that was still in the window when the user's log was last pruned, or the present if there is none |
| `RateLimiter.SweepForgetsTheIdle` | internal/ratelimit/ratelimit.go:100-122 | after a sweep a user is on the books if and only if a granted call is in the window |
| `RateLimiter.RemainingIsExact` | internal/ratelimit/ratelimit.go:60-76 | if r calls remain the user's next r are admitted whenever they come, and at the same instant a call is admitted if and only if fewer than r came before it |
| `MessageSplitter.InsideTagMeaning` | internal/telegram/formatter.go:117-130 | a position is inside a tag if and only if some '<' stands at or before it with no '>' since |
| `MessageSplitter.IsInsideHTMLTag` | internal/telegram/formatter.go:117-130 | the backward scan decides that, and answers false outside the text |
| `MessageSplitter.FindSafeSplitPoint` | internal/telegram/formatter.go:79-115 | the three searching loops return the split point for every limit below the text's length, and a negative limit unchanged |
| `MessageSplitter.FindSplitPointAfterTag` | internal/telegram/formatter.go:94-106 | the second phase returns past the first break within 50 bytes of the first '>' from maxLen on, else past that '>', and 0 when no '>' follows |
| `MessageSplitter.SplitPointIsTheCut` | internal/telegram/formatter.go:79-115 | the split point is the one place that is after the last safe break in the upper half of the limit; or, with none and a tag open at the limit that closes later, after the first break within 50 bytes past the first '>' or at that '>' if there is none; or else after the last break of any kind; or at the limit if there is none |
| `MessageSplitter.SplitPointBounds` | internal/telegram/formatter.go:79-115 | a cut lies in the text, and passes maxLen if and only if no safe break was found and the tag open at maxLen is closed later, then by at most 50 past that '>' |
| `MessageSplitter.SplitMessage` | internal/telegram/formatter.go:55-77 | for every limit and text on which the loop comes to an answer, it terminates and returns the parts that cutting at the split point over and over gives |
| `MessageSplitter.ZeroLimitEndsIff` | internal/telegram/formatter.go:62-74 | with limit zero the loop ends if and only if each remaining text begins with a tag that is closed |
| `MessageSplitter.SplitIsPartition` | internal/telegram/formatter.go:55-77 | the parts concatenate to the text, none is empty unless the text is, and each is at most maxLen bytes or ends within 50 bytes of the first '>' at or after maxLen in what remained |
| `MessageSplitter.SuffixScanAgrees` | internal/telegram/formatter.go:117-130 | scanning what remains after a cut outside a tag agrees with scanning the whole text |
| `MessageSplitter.CutOutsideTagIffSafe` | internal/telegram/formatter.go:79-115 | exactly when one cut is outside the text's tags, phase by phase |
| `MessageSplitter.SplitsSafelyIff` | internal/telegram/formatter.go:55-115 | every cut of the whole split is outside the text's tags if and only if each cut in turn is safe in what remains there |
| `MessageSplitter.PartsFitIff` | internal/telegram/formatter.go:55-115 | every part is within the limit if and only if no cut has to pass a tag |
| `MessageSplitter.BalancedPartsIffSplitsSafely` | internal/telegram/formatter.go:55-115 | the parts of a balanced text are all balanced if and only if each cut in turn is safe |
| `MessageSplitter.CutCanBreakTag` | internal/telegram/formatter.go:94-115 | for every limit of at least 1 a text with a cut inside a tag and a part longer than the limit |
| `MessageSplitter.BreakableTextIsCutSafely` | internal/telegram/formatter.go:55-92 | if every stretch as wide as the first phase's search has a break outside any tag, every cut is outside the whole text's tags and every part is at most maxLen bytes |
| `MessageSplitter.BalancedPartsIffCutsOutside` | internal/telegram/formatter.go:55-77 | the parts of a balanced text are all balanced if and only if every cut is outside a tag |
| `MessageSplitter.BreakableBalancedTextSplitsBalanced` | internal/telegram/formatter_test.go:87-121 | for such texts every part is balanced and has as many '<' as '>', which is what the test counts |
| `TokenProtocol.Client.CheckCached` | internal/llm/gigachat/client.go:141-165 | hands out the cached token if and only if there is one and it has more than five minutes to live |
| `TokenProtocol.Client.StoreReply` | internal/llm/gigachat/client.go:194-202 | both fields become those of the reply, the expiry read as milliseconds |
| `TokenProtocol.Client.InvalidateToken` | internal/llm/gigachat/client.go:205-210 | both fields go back to their zero values |
| `TokenProtocol.InvHolds` | internal/llm/gigachat/client.go:90-210 | every interleaving of N callers and the clock keeps the lock, token and request-count invariants |
| `TokenProtocol.AuthOnlyWhenNeeded` | internal/llm/gigachat/client.go:153-203 | an auth request is in flight only from the one holder of the write lock, with no reader beside it and no usable token cached |
| `TokenProtocol.FetchesAreAccountedFor` | internal/llm/gigachat/client.go:141-210 | usable tokens fetched = thrown away + lapsed + the one still cached, so auth replies number at most 1 + invalidations + lapses + replies already stale on arrival |
| `TokenProtocol.CompletionBudget` | internal/llm/gigachat/client.go:90-139 | one completion makes at most 2 chat calls, 3 auth calls and 1 invalidation, at most one chat and one auth call before its first reply, and calls only with issued tokens |
| `TokenProtocol.RefusedTokenIsNotResent` | internal/llm/gigachat/client.go:90-139 | in every run in which auth replies never repeat a token, the second chat call does not carry the token refused on the first |
| `TokenProtocol.ThrownAwayTokenIsAnothers` | internal/llm/gigachat/client.go:205-210 | a token other than the refused one, when an invalidation throws it away, is what another caller's auth reply wrote last |
| `TokenProtocol.NewerTokenIsThrownAwayIff` | internal/llm/gigachat/client.go:205-210 | if auth replies never repeat a token, an invalidation throws away another than the refused one if and only if the last write to the cache was a non-empty auth reply that came after the caller was handed the refused one |
| `TokenProtocol.NewerTokenCanBeThrownAway` | internal/llm/gigachat/client.go:205-210 | a run in which that happens to a usable token |
| `TokenProtocol.SomeoneCanMove` | internal/llm/gigachat/client.go:141-210 | no deadlock: while a completion is unfinished some unfinished completion has an enabled step |
| `TokenProtocol.CompletionsAreShort` | internal/llm/gigachat/client.go:90-139 | in every run a completion takes at most nineteen steps of its own |
| `TokenTraces.OutcomeIsDecidedByLastStep` | internal/llm/gigachat/client.go:90-139 | in every run a completion is answered if and only if its own last step was a chat reply that was neither refusal nor error, and failed if and only if that step was a failed auth or chat request, an error reply, or a refusal after an invalidation |
| `TokenTraces.CompletionsFollowTheProtocol` | internal/llm/gigachat/client.go:90-210 | in every run the own steps of a completion are those of the protocol in its order: a token and a call, and after a refusal the invalidation, a token, a token again and a second call |
| `TokenTraces.CacheServesIff` | internal/llm/gigachat/client.go:141-165 | at either look at the cache a caller is given the token of the last auth reply if and only if that was not thrown away since, is not empty and has more than five minutes to live |
| `TokenTraces.FetchedTokenIsUsed` | internal/llm/gigachat/client.go:190-203 | a caller that fetched a token goes on with it, whatever its expiry, and releases the write lock |
| `Ordering.ExchangeSort` | internal/repository/mocks.go:265-271 | the nested exchange loops leave a permutation in descending order of the key |
| `Ordering.SortedKeysAreUnique` | internal/service/query.go:358-360 | all outcomes of an unstable sort show the same sequence of keys |
| `SearchMerge.MergeAndRank` | internal/service/query.go:346-366 | the answer is the cut of some sort of the first-seen results, for the lists in the order they arrived, and none of the lists is altered |
| `SearchMerge.DeduplicationKeepsUrls` | internal/service/query.go:349-356 | deduplication keeps exactly the URLs there were, each once |
| `SearchMerge.FirstSeenIsFirst` | internal/service/query.go:349-356 | and for each URL the result that came first |
| `SearchMerge.AnswerShape` | internal/service/query.go:346-366 | URLs are distinct, scores descend, and there are min(maxResults, number of distinct URLs) results, each first seen with its URL |
| `SearchMerge.AnswerIsTopK` | internal/service/query.go:358-366 | no URL left out had a higher first-seen score than a result that was kept |
| `SearchMerge.FailuresLoseNothing` | internal/service/query.go:326-347 | a URL is merged if and only if some search that succeeded found it, whichever searches failed |
| `SearchMerge.ScheduleIndependentIffAgree` | internal/service/query.go:326-356 | the scores that URLs end up with are independent of the goroutines' order if and only if lists sharing a URL agree on its score |
| `SearchMerge.ScoresOfAnswerAreScheduleIndependent` | internal/service/query.go:323-366 | if equal URLs carry equal scores, every arrival order and every outcome of the sort give the same sequence of scores |
| `SearchMerge.UrlsOfAnswerAreScheduleIndependent` | internal/service/query.go:323-366 | if scores are moreover distinct, the sequence of URLs is the same too |
| `TtlCache.Cache.Get` | internal/cache/memory/cache.go:35-44 | a miss for an absent or expired key, otherwise the stored value |
| `TtlCache.Cache.Set` | internal/cache/memory/cache.go:46-50 | that key alone is stored, to expire ttl from now |
| `TtlCache.Cache.Delete` | internal/cache/memory/cache.go:52-56 | that key alone is gone |
| `TtlCache.Cache.RemoveExpired` | internal/cache/memory/cache.go:85-95 | exactly the expired items are gone, in whatever order the map is ranged over |
| `TtlCache.HitIsLatestPut` | internal/cache/memory/cache.go:35-56 | after any run a Get hits if and only if the latest Set of the key was not deleted and is not expired, and then returns its value |
| `TtlCache.SweepsAreUnobservable` | internal/cache/memory/cache.go:85-95 | no Get, now or later, can tell whether sweeps took place |
| `TtlCache.SweepLeavesExactlyTheLive` | internal/cache/memory/cache.go:85-95 | after a sweep exactly the keys are held whose latest Set was not deleted and has not expired, with its value |
| `CachedSearch.SearchSingleQuery` | internal/service/query.go:369-406 | the key is the hash of the query's and domains' data; a hit is passed on and nothing stored; after a miss a successful reply is passed on and stored under the key; a failure stores nothing |
| `CachedSearch.HitIsLatestSuccess` | internal/service/query.go:369-406 | over every interleaving of requests and sweeps, and for every hash, a hit is exactly the list stored by the latest successful request with the same key, at most the TTL old |
| `CachedSearch.HitAnswersLatestRequest` | internal/service/query.go:369-406 | a hit is what the client replied to the latest request stored under the key, which need not be this one |
| `CachedSearch.SureIffBrought` | internal/service/query.go:369-406 | a run settles what a fresh search for a request would reply, over all clients that answer as the run has it, if and only if a search for that very request brought it |
| `CachedSearch.HitIsFreshIff` | internal/service/query.go:369-406 | a hit is sure to be what a fresh search would reply, whatever the client, if and only if the latest list stored under the key was also brought by a search for this very request |
| `CachedSearch.AloneUnderItsKeyIsFresh` | internal/service/query.go:369-416 | so if the hash tells all data apart and no other request stored has query and domains that run together alike, every hit of the request is as good as a fresh search |
| `CachedSearch.HitNeedNotBeFresh` | internal/service/query.go:370-377 | for every client that heeds maxResults the list of the request stored first is served to one that asks for another number |
| `CachedSearch.RequestsShareEntryIff` | internal/service/query.go:408-416 | exactly which requests share an entry when the hash tells all data apart |
| `Text.FieldsOfJoin` | internal/service/query.go:418-422 | Fields undoes Join with a space on non-empty words without white space |
| `Text.FieldsOfTrimSpace` | internal/service/query.go:418-422 | trimming changes no words |
| `Text.SpacesByCodePoint` | internal/service/query.go:418-422 | white space by code point, as the Unicode standard has it |
| `Text.FieldsOfSpaced` | internal/service/query.go:418-422 | whatever white space stands before, between and after words, Fields finds just these |
| `Text.TrimSpaceIs` | internal/service/query.go:418-422 | what TrimSpace leaves is what stands between the outer white space |
| `Text.BlankIff` | internal/service/worldmodel.go:289-291 | a text is nothing but white space if and only if TrimSpace leaves nothing of it |
| `Text.TrimIs` | internal/service/worldmodel.go:209 | what Trim leaves is what stands between the outer characters of the cutset |
| `Text.ContainsIff` | internal/repository/mocks.go:305 | a text contains another if and only if it is the other with something before and after |
| `Text.BytesByScript` | internal/service/worldmodel.go:142-174 | the size in bytes: one a character for ASCII, two from U+0080 to U+07FF, where Cyrillic is, and never more than four |
| `Text.LoweredAlikeIff` | internal/service/query.go:419 | two characters are lowered alike if and only if they are the same or a capital letter and its small one, Latin or Cyrillic |
| `Text.TextsLoweredAlikeIff` | internal/service/query.go:419 | and so are two texts, character by character |
| `Text.LoweredWordsAlikeIff` | internal/service/query.go:418-422 | two texts have the same lowered words if and only if their words differ in letter case only |
| `Text.SplitOfJoin` | internal/service/query.go:413 | splitting at a separator undoes joining with it on pieces that do not contain it |
| `CacheKey.NormalizeIsCanonical` | internal/service/query.go:418-422 | two queries are normalized alike if and only if their words are the same but for letter case, letter by letter |
| `CacheKey.NormalizeIsIdempotent` | internal/service/query.go:418-422 | normalizing twice is normalizing once |
| `CacheKey.SortedIsUnique` | internal/service/query.go:410-412 | a multiset of domains has one sorted order |
| `CacheKey.KeyIsCanonical` | internal/service/query.go:408-416 | the key data ignores the order of the domains and, for the same domains, tells two queries apart if and only if their words differ beyond letter case |
| `CacheKey.KeyIgnoresCase` | internal/service/query.go:408-422 | changing the letter case of any characters of the query, or the order of the domains, changes no key |
| `CacheKey.KeyIgnoresSpacing` | internal/service/query.go:408-422 | whatever white space stands around and between the words, for the same domains the key data are equal if and only if the words are the same but for letter case |
| `CacheKey.SameQuerySameKeyIff` | internal/service/query.go:408-416 | for one query, and domains not empty and without a comma, the key data are equal if and only if the domains are the same multiset |
| `CacheKey.SameKeyIff` | internal/service/query.go:408-416 | for all queries and domains, the key data are equal if and only if one normalized query begins with the other and the rest of it makes up for what the other's domains begin with |
| `CacheKey.KeysCanCollide` | internal/service/query.go:413 | different searches with the same key data: a query that ends as a domain begins, a domain with a comma, an empty domain |
| `CriticLoop.ReviewWithCritic` | internal/service/query.go:483-525 | for every critic and improver: at most MaxRetries + 1 reviews and MaxRetries improvements, each answer reviewed after the first is the improvement of the one before, and the answer returned is the one reviewed last; with a negative MaxRetries nothing is reviewed |
| `CriticLoop.ReviewedIsUnique` | internal/service/query.go:483-525 | the critic and the improver determine the whole sequence of reviewed answers |
| `CriticLoop.ReturnedDespiteObjections` | internal/service/query.go:504-519 | an answer the critic objects to is returned only for want of retries or because improving it failed |
| `CriticLoop.StopsAtFirstReason` | internal/service/query.go:483-525 | the loop stops at the first answer whose review fails, or is approving without issues (and, when strict, without suggestions), or that is the last attempt, or that cannot be improved; and at no other |
| `ExtractJson.ExtractJSON` | internal/service/critic.go:146-166 | returns the shortest brace-balanced block at the first '{', else the tail from there, else the input |
| `ExtractJson.LevelMeaning` | internal/service/critic.go:152-163 | braces are balanced if and only if as many close as open and no stretch from the start closes more than it opened |
| `ExtractJson.ExtractRecoversBlock` | internal/service/critic.go:146-166 | any balanced block is recovered from any prose without '{' before it and any text after it |
| `ExtractJson.RecoveredIffBlock` | internal/service/critic.go:146-166 | a text that begins with '{' survives whatever follows it if and only if it is a balanced block |
| `ExtractJson.ExtractIsIdempotent` | internal/service/critic.go:146-166 | extracting twice is extracting once |
| `ExtractJson.ExtractWithoutBlock` | internal/service/critic.go:146-150 | without '{' the input comes back, and with nothing balanced at the first '{' the whole tail does |
| `ExtractJson.ExtractRecoversObject` | internal/service/critic.go:145-166 | any JSON object (section 4 of RFC 8259) without braces in its strings is recovered from surrounding prose |
| `ExtractJson.BraceInStringCutsObject` | internal/service/critic.go:153-162 | an object with a brace in a string that is cut short |
| `FenceStripping.StripFences` | internal/service/worldmodel.go:261-279 | a response that begins with a fence is reduced to the lines inside its blocks; any other is left alone |
| `FenceStripping.KeptBelowOddFences` | internal/service/worldmodel.go:267-277 | a line is kept if and only if it is no fence and an odd number of fences stand above it |
| `FenceStripping.BlockIsRecoveredIff` | internal/service/worldmodel.go:261-279 | of a response with one fenced block exactly the block is left if and only if only blank lines stand above it; otherwise the response comes back with its fences |
| `FenceStripping.StrippedIsIdempotent` | internal/service/worldmodel.go:261-279 | stripping twice is stripping once |
| `Coordinator.SelectAgents` | internal/agent/coordinator.go:92-128 | the selection is the cut of the eligible agents, or of all if there are none, in some descending order of score |
| `Coordinator.SelectionByThreshold` | internal/agent/coordinator.go:109-127 | if some agent scores at least 0.3 every selected one does and there are min(maxAgents, agents that do) of them; otherwise there are min(maxAgents, all agents) |
| `Coordinator.SelectionByStrategy` | internal/agent/coordinator.go:92-128 | so a quick question goes to one agent, a standard one or one of another kind to two, a deep one to four, and to fewer only if there are fewer to ask |
| `Coordinator.SelectionShape` | internal/agent/coordinator.go:92-128 | a selection is non-empty when there are agents and room, and comes best first from the pool of the eligible or of all |
| `Coordinator.HigherLimitExtends` | internal/agent/coordinator.go:92-128 | with a higher limit the same sequence of scores is selected and perhaps more after it, whatever the unstable sort does |
| `Coordinator.StrategiesAskSomeone` | internal/agent/coordinator.go:183-193 | so the scores a quick question goes to begin those of a standard one, and these those of a deep one; every strategy asks someone and none more than four |
| `Coordinator.NoBetterAgentLeftOut` | internal/agent/coordinator.go:92-128 | no agent left out scores above a selected one |
| `Coordinator.InvHolds` | internal/agent/coordinator.go:132-160 | every interleaving of the goroutines keeps mutual exclusion, no lost append, and the WaitGroup equal to the number of goroutines not done |
| `Coordinator.ResponsesAreAllSuccesses` | internal/agent/coordinator.go:132-160 | whatever the interleaving, what is collected is a permutation of the successful agents' replies |
| `Coordinator.NoDeadlock` | internal/agent/coordinator.go:132-160 | until Wait can return some goroutine can move |
| `Coordinator.RunsAreShort` | internal/agent/coordinator.go:132-160 | every interleaving ends within five steps for each agent |
| `Coordinator.RunParallel` | internal/agent/coordinator.go:132-160 | scheduled in any way, the goroutines come to an end and what they collected is returned |
| `Coordinator.Assemble` | internal/agent/coordinator.go:61-88 | fails if and only if there are no responses or several and no synthesis; otherwise AgentsUsed is aligned with the responses and a single response is the answer |
| `Coordinator.Process` | internal/agent/coordinator.go:46-89 | a valid request is answered from a selection for its strategy, run in some schedule, by the assembled responses |
| `Coordinator.ProcessUsesTheSuccessful` | internal/agent/coordinator.go:46-89 | when agents sign their answers (internal/agent/agent.go:148), AgentsUsed is a permutation of the names of the selected agents that succeeded, there are no responses if and only if none did, and a failed synthesis means that several did |
| `WorldModelRepository.Repository.CreateFact` | internal/repository/mocks.go:239-252 | refused if and only if the identifier is taken; otherwise that fact alone is added |
| `WorldModelRepository.Repository.FindFactByContent` | internal/repository/mocks.go:312-322 | finds a fact of the user with this content if and only if there is one |
| `WorldModelRepository.Repository.CreateEntity` | internal/repository/mocks.go:324-345 | refused if and only if the user has an entity of that name; otherwise the object itself is stored, its nil attributes replaced by an empty map |
| `WorldModelRepository.Repository.FindEntity` | internal/repository/mocks.go:347-357 | finds the user's entity of this name if and only if there is one |
| `WorldModelRepository.Repository.UpdateEntity` | internal/repository/mocks.go:372-382 | puts any object, as a rule the stored one that its holder has been changing, under its identifier and makes its present contents the stored ones; refused if and only if the identifier is unknown |
| `WorldModelRepository.Repository.CreateSession` | internal/repository/mocks.go:384-397 | refused if and only if the identifier is taken |
| `WorldModelRepository.Repository.AddFactToSession` | internal/repository/mocks.go:425-437 | the link is appended unless it is there already |
| `WorldModelRepository.Repository.AddEntityToSession` | internal/repository/mocks.go:439-451 | the link is appended unless it is there already |
| `WorldModelRepository.Repository.GetFactsByUser` | internal/repository/mocks.go:254-278 | all of the user's facts newest first, or the limit newest when the limit is positive |
| `WorldModelRepository.NewestFirstLeavesOutOlder` | internal/repository/mocks.go:265-275 | no fact left out is newer than one returned |
| `WorldModelRepository.NewestFirstShape` | internal/repository/mocks.go:254-278 | as many facts come back as the user has or as a positive limit allows, each one of the user's, newest first |
| `WorldModelRepository.Repository.SearchFacts` | internal/repository/mocks.go:298-310 | finds each of the user's facts whose content contains the query, whatever the letter case, once |
| `WorldModelRepository.MatchesIff` | internal/repository/mocks.go:298-310 | a fact is found if and only if it is the user's and the query stands somewhere in its content, letter by letter but for case |
| `WorldModelRepository.MatchesIgnoresCase` | internal/repository/mocks.go:303-305 | no change of letter case in the query or in the content changes what is found |
| `RelevantContext.ExtractKeywords` | internal/service/worldmodel.go:206-214 | the loop collects the trimmed words that are neither empty nor stop words, in order |
| `RelevantContext.KeywordIff` | internal/service/worldmodel.go:206-214 | the keywords are exactly the lowered words, trimmed of punctuation, that are neither empty nor stop words |
| `RelevantContext.KeywordsInOrder` | internal/service/worldmodel.go:206-214 | they keep the order of the words, and a word that comes again is a keyword again |
| `RelevantContext.RelevantIff` | internal/service/worldmodel.go:140-153 | a fact bears on the question if and only if it is the user's and a keyword of at least three bytes stands in its content, in any mixture of letter case |
| `RelevantContext.KeywordShape` | internal/service/worldmodel.go:183-215 | a keyword is in lower case, without white space or outer punctuation, and no stop word, so lowering it again in the search changes nothing |
| `RelevantContext.FindFacts` | internal/service/worldmodel.go:140-153 | collects exactly the user's facts that contain a keyword of at least three bytes |
| `RelevantContext.GetRelevantContext` | internal/service/worldmodel.go:130-181 | returns what filling up with the relevant facts in some order gives |
| `RelevantContext.ContextShape` | internal/service/worldmodel.go:130-181 | any such result is at most 2000 bytes, lists only the user's facts that contain a keyword of at least three bytes and none twice, is empty if and only if there is none, and leaves one out only if some fact left out does not fit |
| `RelevantContext.ContextShows` | internal/service/worldmodel.go:163-178 | the context shows each listed fact's content on a line of its own and, if it has one, its source |
| `WorldModelService.SaveFact` | internal/service/worldmodel.go:288-313 | blank content is ignored, known content only linked to the session, new content stored and linked |
| `WorldModelService.MergeAttributes` | internal/service/worldmodel.go:331-333 | writing the new attributes one by one, in any order, into the stored object's map gives the later-wins union; the map is never nil |
| `WorldModelService.SaveEntity` | internal/service/worldmodel.go:315-361 | nameless or ill-typed entities are ignored; a known one is merged in place and linked; a new one stored and linked |
| `WorldModelService.UpdateExisting` | internal/service/worldmodel.go:330-338 | changing the shared object and handing it back changes that entity's attributes and last sight and nothing else in the store |
| `WorldModelService.ExtractAndStore` | internal/service/worldmodel.go:79-128 | the object-level run refines the value-level one and keeps its invariant; the session is kept even when the model's reply is unusable |
| `WorldModel.RunsKeepInv` | internal/service/worldmodel.go:79-128 | every sequential run keeps facts unique by content and entities by name for each user, session links sound and duplicate-free, and attribute maps non-nil |
| `SessionLinks.SessionLinksAreExact` | internal/service/worldmodel.go:103-119 | in every run, at once and ever after, a session links to exactly the stored facts and entities that its own extraction validly mentioned, in order of first mention; to none when the reply was unusable |
| `SessionLinks.LinkedMeaning` | internal/repository/mocks.go:425-451 | such links name each of those items once and nothing else |
| `SessionLinks.LinkedGrowsInOrder` | internal/repository/mocks.go:425-451 | and an item mentioned earlier is linked earlier |
| `SessionLinks.SessionsAreKept` | internal/service/worldmodel.go:80-101 | every extraction leaves a session of its own with its user, question and time, usable reply or not, ever after |
| `WorldModel.StoredEntityIsSummary` | internal/service/worldmodel.go:315-361 | after any run an entity is stored if and only if it was ever validly mentioned, with the later-wins fold of all mentions' attributes, the type and first sight of the first and the last sight of the last |
| `EntityHistory.StoredEntityByMentions` | internal/service/worldmodel.go:315-361 | told from the extractions alone: an entity is stored if and only if some extraction mentioned it with one of the five types; each attribute has the value of the last mention that brought one, and no others are there |
| `WorldModel.EntitiesOnlyGrow` | internal/service/worldmodel.go:315-361 | a stored entity stays, with its type and first sight, and its last sight never goes back |
| `WorldModel.StoredFactIsFirstMention` | internal/service/worldmodel.go:288-313 | after any run a fact is stored if and only if it was mentioned and not blank, as its first mention had it |
| `WorldModel.RepeatAddsNothing` | internal/service/worldmodel.go:288-361 | repeating an extraction adds no facts and no entities |
| `WorldModel.RepeatKeepsAttributes` | internal/service/worldmodel.go:330-334 | and leaves every entity's attributes as they were |
| `SourceQuota.SourceRepository.Create` | internal/repository/mocks.go:108-123 | refused if and only if the user has the URL; otherwise stored under the next identifier |
| `SourceQuota.SourceRepository.Delete` | internal/repository/mocks.go:125-136 | removes a source of that user; otherwise reports it missing and changes nothing |
| `SourceQuota.SourceRepository.ExistsByURL` | internal/repository/mocks.go:161-171 | true if and only if the user has a source with the URL |
| `SourceQuota.SourceRepository.CountByUser` | internal/repository/mocks.go:173-184 | counts exactly the user's sources |
| `SourceQuota.SourceRepository.UpdateTrustLevel` | internal/repository/mocks.go:207-218 | changes the trust level of a source of that user and nothing else; otherwise reports it missing |
| `SourceQuota.RemoveIsExact` | internal/repository/mocks.go:125-136 | removing succeeds if and only if the source is the user's; then it is gone and its URL with it, and every other source is as it was; otherwise nothing changes |
| `SourceQuota.SetTrustLevelIsExact` | internal/repository/mocks.go:207-218 | setting the level succeeds if and only if the source is the user's; then that source has the new level and nothing else differs; otherwise nothing changes |
| `SourceQuota.AddSource` | internal/service/source.go:42-74 | checks URL, limit and duplicate in that order and stores a source of medium trust |
| `SourceQuota.AddIsExact` | internal/service/source.go:42-74 | which of the three errors comes when, in that order of precedence; and on success the user has exactly one more source, of medium trust and the user's own |
| `SourceQuota.ImportSeedSources` | internal/service/source.go:93-137 | stores each seed whose URL the user lacks, without looking at the limit, and counts them |
| `SourceQuota.RunsKeepInv` | internal/service/source.go:42-151 | every run keeps a user's URLs unique, identifiers below the next one, and at most 100 sources whose URL is no seed |
| `SourceQuota.QuotaBound` | internal/service/source.go:42-151 | so a user never has more than 100 plus the number of distinct seed URLs |
| `SourceQuota.QuotaBoundIsReached` | internal/service/source.go:42-137 | and for every seed list and user some run gets there |
| `SourceQuota.IdsAreNeverReused` | internal/repository/mocks.go:108-136 | an identifier given out and no longer in use is never used again |
| `SourceQuota.ImportSeedIsExact` | internal/service/source.go:93-137 | afterwards the user has every seed URL besides what there was, and the count grew by exactly the number returned, that of the distinct seed URLs that were missing |
| `SourceQuota.ImportSeedAddsSeeds` | internal/service/source.go:93-137 | every source stays as it was, and what is added are seeds, of high trust and not the user's own, under the name that comes first for the URL |
| `SourceQuota.ImportStaysWithinLimitIff` | internal/service/source.go:93-137 | the limit holds after an import if and only if there was room for every missing seed |
| `SourceQuota.SecondImportDoesNothing` | internal/service/source.go:93-137 | a second import straight after the first returns 0 and changes nothing |

## Left out

- HTTP transport, JSON decoding, request validation, logging, metrics, configuration, the Postgres repositories, the prompts and the bot's handlers and texts.
- SHA-256: any function may stand for the shortened hash, and nothing is claimed about its collisions.
- Letter case: `Text.Lower` covers ASCII and the Cyrillic letters from U+0400 to U+042F; other scripts are left alone.
- UTF-8: byte slicing may split a character. Strings are sequences of bytes in the splitter and the brace extraction, and of characters where words, lines and letter case matter; there `Text.Bytes` is the size.
- NaN scores, for which sort.Slice has no order.
- `extractDomain` against `Source.Domain`: the second depends on net/url, which is not part of this model; so are URL validation and the name taken from a URL.
- How an agent scores a question, and insight and source-marker parsing: keyword tables and regular expressions; a score is any real number here.
- `GetRecentSessions`, `GetFactsBySession` and the list operations: filters over the same maps, with the same exchange sort as `GetFactsByUser`.
- `completeWithRetry`, `getToken`, `refreshToken`: as steps of a transition system, since they run side by side; the class `TokenProtocol.Client` holds only the critical sections. A request that cannot be built counts as one that failed.
- `runParallel`, and the goroutines of `searchWithCache`: the first as a transition system, the second as any arrival order of the successful lists together with any interleaving of atomic cache operations. A search that the deadline cancels counts as failed.
- Concurrent `ExtractAndStore` and source operations: finding and creating are two calls on the repository and not atomic together, so the uniqueness theorems are about operations that come one after another.
- Facts, sessions and sources handed out by the repositories are values here; only entities, which the service changes in place, are shared objects.
- Zero times: the repositories replace them by the current time, but the service never passes one.
- Two readings of the clock in a row, as for FirstSeenAt and LastSeenAt of a new entity, are one reading here.
- A cached value that is not a list of results: nothing stores one.
- The seed list is a parameter.
